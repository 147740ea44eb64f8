/** The sizes that the record store and the schema rules both keep to (src/RecordStore.c). */
module Limits {
  const MAX_NUM_RECORDS := 250
  const MAX_RECORD_SIZE := 250
}
