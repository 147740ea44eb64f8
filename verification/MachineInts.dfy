/** The fixed-width integers of the C sources. Values are mathematical integers in range;
    every place where C wraps or truncates spells that out with one of these functions. */
module MachineInts {
  type uint8 = x: int | 0 <= x < 0x100
  type uint16 = x: int | 0 <= x < 0x1_0000
  type uint32 = x: int | 0 <= x < 0x1_0000_0000

  function ToUint8(x: int): uint8 { x % 0x100 }

  function ToUint16(x: int): uint16 { x % 0x1_0000 }

  function ToUint32(x: int): uint32 { x % 0x1_0000_0000 }

  /** Two's complement reading of the low 16 bits. */
  function ToInt16(x: int): int {
    var u := x % 0x1_0000;
    if u < 0x8000 then u else u - 0x1_0000
  }
}
