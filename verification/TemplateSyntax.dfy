/** The template language of include/BitsOfDataTemplates.h: its templates as trees, the format
    strings that spell them, and what they mean.  Templates have one level of structure only,
    because conditionals do not nest. */
module TemplateSyntax {
  import opened MachineInts
  import opened Wrappers

  datatype Operator = Greater | GreaterOrEqual | Equal | Less | LessOrEqual | NotEqual

  /** The format properties o, + and x of a tag. */
  datatype Props = Props(leading0: bool, offset1: bool, asHex: bool)

  const NO_PROPS := Props(false, false, false)

  /** What a tag writes.  Numbers are kept as the digits that spell them. */
  datatype Value =
    | Column(flags: Props, id: string)
    | RecordId(flags: Props)
    | NumRecords(flags: Props)
    | Parent(flags: Props, id: string)

  datatype Part = Text(text: string) | Tag(value: Value)

  datatype Rhs = Literal(digits: string) | OtherColumn(id: string) | OwnRecord(plus: bool)

  datatype Comparison = Comparison(op: Operator, rhs: Rhs)

  datatype Item =
    | Single(part: Part)
    | If(flags: Props, id: string, test: Option<Comparison>, thn: seq<Part>, els: Option<seq<Part>>)

  type Template = seq<Item>

  // ---- numbers ----

  predicate IsDigit(c: char) { '0' <= c <= '9' }

  predicate AreDigits(s: string) { forall i :: 0 <= i < |s| ==> IsDigit(s[i]) }

  function Digit(c: char): (d: nat)
    requires IsDigit(c)
    ensures d < 10
  {
    c as int - '0' as int
  }

  /** Reading digits after n has been read. */
  function ReadOn(n: nat, digits: string): (r: nat)
    requires AreDigits(digits)
    ensures n <= r
    decreases digits
  {
    if digits == "" then n else ReadOn(10 * n + Digit(digits[0]), digits[1..])
  }

  function NumberOf(digits: string): nat
    requires AreDigits(digits)
  {
    ReadOn(0, digits)
  }

  // ---- operators ----

  /** ou_getOperator, and tu_getOperator: the operator in the first one or two characters. */
  function OperatorAt(s: string): Option<Operator> {
    if s == "" then None
    else
      var equals := |s| > 1 && s[1] == '=';
      match s[0]
      case '=' => if equals then Some(Equal) else None
      case '!' => if equals then Some(NotEqual) else None
      case '>' => Some(if equals then GreaterOrEqual else Greater)
      case '<' => Some(if equals then LessOrEqual else Less)
      case _ => None
  }

  /** ou_getOperatorLength, and tu_getOperatorLength. */
  function OperatorLength(op: Operator): nat {
    if op == Greater || op == Less then 1 else 2
  }

  predicate IsOperatorChar(c: char) {
    c == '=' || c == '>' || c == '<' || c == '!'
  }

  // ---- which trees are templates ----

  predicate IsNumber(digits: string) {
    digits != "" && AreDigits(digits) && NumberOf(digits) <= 255
  }

  predicate IsPlain(s: string) {
    forall i :: 0 <= i < |s| ==> s[i] != '{' && s[i] != '}'
  }

  predicate IsValue(v: Value) {
    match v
    case Column(_, id) => IsNumber(id)
    case RecordId(_) => true
    case NumRecords(flags) => !flags.offset1
    case Parent(flags, id) => !flags.offset1 && IsNumber(id)
  }

  predicate IsPart(p: Part) {
    if p.Text? then p.text != "" && IsPlain(p.text) else IsValue(p.value)
  }

  /** Text between two tags is one part. */
  predicate AreParts(parts: seq<Part>) {
    && (forall i :: 0 <= i < |parts| ==> IsPart(parts[i]))
    && (forall i :: 0 < i < |parts| ==> parts[i].Text? ==> parts[i - 1].Tag?)
  }

  predicate IsRhs(r: Rhs) {
    match r
    case Literal(digits) => IsNumber(digits)
    case OtherColumn(id) => IsNumber(id)
    case OwnRecord(_) => true
  }

  predicate IsItem(item: Item) {
    match item
    case Single(part) => IsPart(part)
    case If(flags, id, test, thn, els) =>
      && !flags.offset1
      && IsNumber(id)
      && (test.Some? ==> IsRhs(test.value.rhs))
      && AreParts(thn)
      && (els.Some? ==> AreParts(els.value))
  }

  predicate IsText(item: Item) {
    item.Single? && item.part.Text?
  }

  predicate IsTemplate(t: Template) {
    && (forall i :: 0 <= i < |t| ==> IsItem(t[i]))
    && (forall i :: 0 < i < |t| ==> IsText(t[i]) ==> !IsText(t[i - 1]))
  }

  // ---- spelling ----

  /** How a literal on the right of a comparison is spelled: the parser of TemplateLanguage.c
      wants bare digits, the interpreter of BitsOfData.c wants them after a '$'. */
  datatype Dialect = Bare | Dollar

  function PrintOperator(op: Operator): string {
    match op
    case Greater => ">"
    case GreaterOrEqual => ">="
    case Equal => "=="
    case Less => "<"
    case LessOrEqual => "<="
    case NotEqual => "!="
  }

  lemma OperatorIsPrinted(op: Operator)
    ensures |PrintOperator(op)| > 0
  {
  }

  function PrintFlags(flags: Props): string {
    (if flags.leading0 then "o" else "") + (if flags.asHex then "x" else "")
  }

  function PrintPlus(plus: bool): string {
    if plus then "+" else ""
  }

  function PrintValue(v: Value): string {
    match v
    case Column(flags, id) => "&" + (id + (PrintPlus(flags.offset1) + "}"))
    case RecordId(flags) => "#" + (PrintPlus(flags.offset1) + "}")
    case NumRecords(_) => "*}"
    case Parent(_, id) => "^" + (id + "}")
  }

  function PrintPart(p: Part): string {
    if p.Text? then p.text else "{" + (PrintFlags(p.value.flags) + PrintValue(p.value))
  }

  function PrintParts(parts: seq<Part>): string {
    if parts == [] then "" else PrintPart(parts[0]) + PrintParts(parts[1..])
  }

  function PrintRhs(r: Rhs, d: Dialect): string {
    match r
    case Literal(digits) => if d == Dollar then "$" + (digits + "}") else digits + "}"
    case OtherColumn(id) => "&" + (id + "}")
    case OwnRecord(plus) => "#" + (PrintPlus(plus) + "}")
  }

  function PrintTest(test: Option<Comparison>, d: Dialect): string {
    if test.None? then "}" else PrintOperator(test.value.op) + PrintRhs(test.value.rhs, d)
  }

  function PrintHead(item: Item, d: Dialect): string
    requires item.If?
  {
    "{" + (PrintFlags(item.flags) + ("?&" + (item.id + PrintTest(item.test, d))))
  }

  function PrintElse(els: Option<seq<Part>>): string {
    if els.None? then "" else "{:}" + PrintParts(els.value)
  }

  function PrintItem(item: Item, d: Dialect): string {
    match item
    case Single(part) => PrintPart(part)
    case If(_, _, _, thn, els) => PrintHead(item, d) + (PrintParts(thn) + (PrintElse(els) + "{;}"))
  }

  function Print(t: Template, d: Dialect): string {
    if t == [] then "" else PrintItem(t[0], d) + Print(t[1..], d)
  }

  // ---- meaning ----

  /** What a template is about: one record of one table.  Column values and the record's position
      decide the tests; the rendering of values is left open, and so is the truth of a test without
      comparison, which no code evaluates. */
  datatype Env = Env(
    recordId: uint8,
    column: uint8 -> uint16,
    columnText: (uint8, Props) -> string,
    recordText: Props -> string,
    countText: Props -> string,
    parentText: (uint8, Props) -> string,
    isTrue: uint8 -> bool)

  function OwnRecordId(env: Env, plus: bool): uint8 {
    if plus then ToUint8(env.recordId + 1) else env.recordId
  }

  predicate Holds(left: uint16, op: Operator, right: uint16) {
    match op
    case Greater => left > right
    case GreaterOrEqual => left >= right
    case Equal => left == right
    case Less => left < right
    case LessOrEqual => left <= right
    case NotEqual => left != right
  }

  function MeaningOfPart(p: Part, env: Env): string
    requires IsPart(p)
  {
    match p
    case Text(text) => text
    case Tag(Column(flags, id)) => env.columnText(NumberOf(id), flags)
    case Tag(RecordId(flags)) => env.recordText(flags)
    case Tag(NumRecords(flags)) => env.countText(flags)
    case Tag(Parent(flags, id)) => env.parentText(NumberOf(id), flags)
  }

  function MeaningOfParts(parts: seq<Part>, env: Env): string
    requires AreParts(parts)
  {
    if parts == [] then "" else MeaningOfPart(parts[0], env) + MeaningOfParts(parts[1..], env)
  }

  function RhsValue(r: Rhs, env: Env): uint16
    requires IsRhs(r)
  {
    match r
    case Literal(digits) => NumberOf(digits)
    case OtherColumn(id) => env.column(NumberOf(id))
    case OwnRecord(plus) => OwnRecordId(env, plus)
  }

  predicate TestHolds(item: Item, env: Env)
    requires item.If? && IsItem(item)
  {
    var left := NumberOf(item.id);
    match item.test
    case None => env.isTrue(left)
    case Some(Comparison(op, rhs)) => Holds(env.column(left), op, RhsValue(rhs, env))
  }

  function MeaningOfItem(item: Item, env: Env): string
    requires IsItem(item)
  {
    match item
    case Single(part) => MeaningOfPart(part, env)
    case If(_, _, _, thn, els) =>
      if TestHolds(item, env) then MeaningOfParts(thn, env)
      else if els.Some? then MeaningOfParts(els.value, env)
      else ""
  }

  function Meaning(t: Template, env: Env): string
    requires IsTemplate(t)
  {
    if t == [] then "" else MeaningOfItem(t[0], env) + Meaning(t[1..], env)
  }

  lemma ConsEqual<T>(x: T, a: seq<T>, y: T, b: seq<T>)
    ensures [x] + a == [y] + b <==> x == y && a == b
  {
    assert ([x] + a)[0] == x && ([x] + a)[1..] == a;
    assert ([y] + b)[0] == y && ([y] + b)[1..] == b;
  }
}
