/** What the tokens of tl_parseFormat mean, the tokens that a template compiles to, and the proof
    that parsing the spelling of a template yields exactly those. */
module TemplateCompiler {
  import opened MachineInts
  import opened Wrappers
  import opened TemplateSyntax
  import opened TemplateParser

  /** The part of a token that src/TemplateLanguage.h:19-34 gives a meaning. */
  datatype Instruction =
    | WriteText(start: nat, length: nat)
    | WriteValue(valueType: ValueType, number: nat, props: Props)
    | Test(number: nat, props: Props, elseIndex: nat, endIndex: nat)
    | Against(op: Operator, valueType: ValueType, number: nat, props: Props)
    | NoInstruction

  function View(token: Token): Instruction {
    match token.tokenType
    case Invalid => NoInstruction
    case TextToken =>
      if token.detail.Span? then WriteText(token.detail.start, token.detail.length) else NoInstruction
    case ValueToken => WriteValue(token.valueType, token.number, token.props)
    case IfLhs => Test(token.number, token.props, JumpsOf(token).elseIndex, JumpsOf(token).endIndex)
    case IfRhs =>
      if token.detail.IfOperator? then Against(token.detail.op, token.valueType, token.number, token.props)
      else NoInstruction
  }

  function Views(tokens: seq<Token>, n: nat): (r: seq<Instruction>)
    requires n <= |tokens|
    ensures |r| == n
  {
    seq(n, i requires 0 <= i < n => View(tokens[i]))
  }

  // ---- the compiler ----

  function ValueInstruction(v: Value): Instruction
    requires IsValue(v)
  {
    match v
    case Column(flags, id) => WriteValue(ColumnValue, NumberOf(id), flags)
    case RecordId(flags) => WriteValue(RecordIdValue, 0, flags)
    case NumRecords(flags) => WriteValue(NumRecordsValue, 0, flags)
    case Parent(flags, id) => WriteValue(ParentColumnValue, NumberOf(id), flags)
  }

  /** at is the position of the part in the format string. */
  function CompilePart(p: Part, at: nat): Instruction
    requires IsPart(p)
  {
    if p.Text? then WriteText(at, |p.text|) else ValueInstruction(p.value)
  }

  function CompileParts(parts: seq<Part>, at: nat): (code: seq<Instruction>)
    requires AreParts(parts)
    ensures |code| == |parts|
  {
    if parts == [] then []
    else [CompilePart(parts[0], at)] + CompileParts(parts[1..], at + |PrintPart(parts[0])|)
  }

  /** The flags of a right-hand side are those that an earlier call left at its index. */
  function CompileTest(test: Option<Comparison>, left: Props): (code: seq<Instruction>)
    requires test.Some? ==> IsRhs(test.value.rhs)
    ensures |code| == if test.Some? then 1 else 0
  {
    match test
    case None => []
    case Some(Comparison(op, Literal(digits))) => [Against(op, LiteralValue, NumberOf(digits), left)]
    case Some(Comparison(op, OtherColumn(id))) => [Against(op, ColumnValue, NumberOf(id), left)]
    case Some(Comparison(op, OwnRecord(plus))) =>
      [Against(op, RecordIdValue, 0, left.(offset1 := left.offset1 || plus))]
  }

  function HeadSize(item: Item): nat
    requires item.If?
  {
    if item.test.Some? then 2 else 1
  }

  function ElseSize(els: Option<seq<Part>>): nat {
    if els.Some? then |els.value| else 0
  }

  function ItemSize(item: Item): nat {
    if item.Single? then 1 else HeadSize(item) + |item.thn| + ElseSize(item.els)
  }

  function LeftAt(left: seq<Props>, i: nat): Props {
    if i < |left| then left[i] else NO_PROPS
  }

  function CompileElse(els: Option<seq<Part>>, at: nat): (code: seq<Instruction>)
    requires els.Some? ==> AreParts(els.value)
    ensures |code| == ElseSize(els)
  {
    if els.Some? then CompileParts(els.value, at + 3) else []
  }

  /** k is the index of the first token of the item. */
  function CompileItem(item: Item, at: nat, k: nat, left: seq<Props>): (code: seq<Instruction>)
    requires IsItem(item)
    ensures |code| == ItemSize(item)
  {
    match item
    case Single(part) => [CompilePart(part, at)]
    case If(flags, id, test, thn, els) =>
      var body := at + |PrintHead(item, Bare)|;
      var elseIndex := if els.Some? then k + HeadSize(item) + |thn| else 0;
      [Test(NumberOf(id), flags, elseIndex, k + ItemSize(item))]
      + CompileTest(test, LeftAt(left, k + 1))
      + CompileParts(thn, body)
      + CompileElse(els, body + |PrintParts(thn)|)
  }

  function Compile(t: Template, at: nat, k: nat, left: seq<Props>): seq<Instruction>
    requires IsTemplate(t)
  {
    if t == [] then []
    else CompileItem(t[0], at, k, left) + Compile(t[1..], at + |PrintItem(t[0], Bare)|, k + ItemSize(t[0]), left)
  }

  // ---- the machine on printed pieces: exact states ----

  lemma RunChar(c: char, rest: string, at: nat, st: State)
    requires st.Fits()
    ensures var next := Step([c] + rest, at, st);
            && (next.None? ==> Run([c] + rest, at, st).None?)
            && (next.Some? && next.value.0 == 1 ==> Run([c] + rest, at, st) == Run(rest, at + 1, next.value.1))
  {
    hide Step;
    assert ([c] + rest)[1..] == rest;
  }

  lemma StepDigit(c: char, rest: string, at: nat, st: State)
    requires st.Fits() && st.mode.Number? && IsDigit(c) && 10 * st.mode.number + Digit(c) <= 255 && at < 255
    ensures Step([c] + rest, at, st)
            == Some((1, st.(mode := Number(st.mode.purpose, 10 * st.mode.number + Digit(c)))))
  {
    hide WithOperand, WithValue, WithProps;
  }

  lemma {:induction false} RunDigits(digits: string, rest: string, at: nat, st: State)
    requires st.Fits() && st.mode.Number? && AreDigits(digits)
    requires ReadOn(st.mode.number, digits) <= 255 && at + |digits| <= 255
    ensures Run(digits + rest, at, st)
            == Run(rest, at + |digits|, st.(mode := Number(st.mode.purpose, ReadOn(st.mode.number, digits))))
    decreases digits
  {
    hide Run, Step;
    if digits == "" {
      assert digits + rest == rest;
      assert st == st.(mode := Number(st.mode.purpose, st.mode.number));
    } else {
      var c, others := digits[0], digits[1..];
      var n := 10 * st.mode.number + Digit(c);
      var next := st.(mode := Number(st.mode.purpose, n));
      assert digits + rest == [c] + (others + rest);
      assert ReadOn(n, others) == ReadOn(st.mode.number, digits);
      assert n <= 255;
      StepDigit(c, others + rest, at, st);
      RunChar(c, others + rest, at, st);
      RunDigits(others, rest, at + 1, next);
    }
  }

  /** A character other than the first of a tag that the machine reads on its own. */
  lemma RunOne(c: char, rest: string, at: nat, st: State, next: State)
    requires st.Fits() && next.Fits() && Step([c] + rest, at, st) == Some((1, next))
    ensures Run([c] + rest, at, st) == Run(rest, at + 1, next)
  {
    hide Step;
    RunChar(c, rest, at, st);
  }

  function WithFlags(props: Props, flags: Props): Props {
    props.(leading0 := props.leading0 || flags.leading0, asHex := props.asHex || flags.asHex)
  }

  lemma PropsTwice(st: State, p: Props, q: Props)
    requires st.Fits()
    ensures WithProps(WithProps(st, p), q) == WithProps(st, q)
    ensures st.count < MAX_NUM_TOKENS ==> PropsOf(WithProps(st, p)) == p
    ensures st.count < MAX_NUM_TOKENS || st.pastEnd ==> WithProps(st, PropsOf(st)) == st
  {
    if st.count < MAX_NUM_TOKENS {
      assert st.tokens[st.count := st.tokens[st.count].(props := p)][st.count := st.tokens[st.count].(props := q)]
          == st.tokens[st.count := st.tokens[st.count].(props := q)];
      assert st.tokens[st.count := st.tokens[st.count]] == st.tokens;
    }
  }

  lemma PropsPastEnd(st: State, p: Props, q: Props)
    requires st.Fits() && st.count == MAX_NUM_TOKENS
    ensures WithProps(st, p) == WithProps(st, q)
  {
  }

  lemma StepFlag(c: char, rest: string, at: nat, st: State)
    requires st.Fits() && st.mode.StartTag? && at < 255 && (c == 'o' || c == 'x')
    ensures Step([c] + rest, at, st)
            == Some((1, WithProps(st, if c == 'o' then PropsOf(st).(leading0 := true) else PropsOf(st).(asHex := true))))
  {
    hide WithProps, PropsOf;
  }

  lemma RunFlags(flags: Props, rest: string, at: nat, st: State)
    requires st.Fits() && st.mode.StartTag? && at + |PrintFlags(flags)| <= 255
    requires st.count < MAX_NUM_TOKENS || st.pastEnd
    ensures Run(PrintFlags(flags) + rest, at, st)
            == Run(rest, at + |PrintFlags(flags)|, WithProps(st, WithFlags(PropsOf(st), flags)))
  {
    hide Run, Step, WithProps;
    var o := if flags.leading0 then "o" else "";
    var x := if flags.asHex then "x" else "";
    var mid := WithProps(st, WithFlags(PropsOf(st), flags.(asHex := false)));
    PropsTwice(st, WithFlags(PropsOf(st), flags.(asHex := false)), WithFlags(PropsOf(st), flags));
    assert PrintFlags(flags) + rest == o + (x + rest);
    assert Run(o + (x + rest), at, st) == Run(x + rest, at + |o|, mid) by {
      if flags.leading0 {
        StepFlag('o', x + rest, at, st);
        RunOne('o', x + rest, at, st, mid);
      } else {
        assert o + (x + rest) == x + rest;
        assert mid == st;
      }
    }
    if flags.asHex {
      assert st.count < MAX_NUM_TOKENS ==> PropsOf(mid).(asHex := true) == WithFlags(PropsOf(st), flags);
      if st.count == MAX_NUM_TOKENS {
        PropsPastEnd(mid, PropsOf(mid).(asHex := true), WithFlags(PropsOf(st), flags));
      }
      StepFlag('x', rest, at + |o|, mid);
      RunOne('x', rest, at + |o|, mid, WithProps(mid, WithFlags(PropsOf(st), flags)));
    } else {
      assert x + rest == rest;
      assert flags.(asHex := false) == flags;
    }
  }

  function TypeOf(v: Value): ValueType {
    match v
    case Column(_, _) => ColumnValue
    case RecordId(_) => RecordIdValue
    case NumRecords(_) => NumRecordsValue
    case Parent(_, _) => ParentColumnValue
  }

  function NumberIn(v: Value): uint8
    requires IsValue(v)
  {
    match v
    case Column(_, id) => NumberOf(id)
    case Parent(_, id) => NumberOf(id)
    case _ => 0
  }

  /** The state after a '{' in plain text. */
  function Opened(st: State, at: nat): (r: Option<State>)
    requires st.Fits() && st.mode.Plain? && at < 255
    ensures r.Some? ==> r.value.Fits() && r.value.mode.StartTag?
  {
    PlainStep('{', at, st)
  }

  lemma StepPlus(rest: string, at: nat, st: State)
    requires st.Fits() && at < 255
    requires st.mode.RecordTag? || (st.mode.Number? && st.mode.purpose.ForColumn?)
    ensures Step(['+'] + rest, at, st) == Some((1, WithProps(st, PropsOf(st).(offset1 := true))))
  {
    hide WithProps, PropsOf;
  }

  function WithPlus(st: State, plus: bool): (r: State)
    requires st.Fits()
    ensures r.Fits() && r.mode == st.mode && r.count == st.count && r.openIf == st.openIf
  {
    if plus then WithProps(st, PropsOf(st).(offset1 := true)) else st
  }

  lemma RunPlus(plus: bool, rest: string, at: nat, st: State)
    requires st.Fits() && at + |PrintPlus(plus)| <= 255
    requires st.mode.RecordTag? || (st.mode.Number? && st.mode.purpose.ForColumn?)
    ensures Run(PrintPlus(plus) + rest, at, st) == Run(rest, at + |PrintPlus(plus)|, WithPlus(st, plus))
  {
    hide Run, Step, WithProps;
    if plus {
      StepPlus(rest, at, st);
      RunOne('+', rest, at, st, WithPlus(st, plus));
    } else {
      assert PrintPlus(plus) + rest == rest;
    }
  }

  /** What the closing brace of an operand stores. */
  function ClosedOperand(st: State): (r: Option<State>)
    requires st.Fits()
    requires st.mode.RecordTag? || (st.mode.Number? && (st.mode.purpose.ForColumn? || st.mode.purpose.ForLiteral?))
    ensures r.Some? ==> r.value.Fits()
  {
    if st.mode.RecordTag? then Close(WithOperand(st, st.mode.rhs, RecordIdValue, 0))
    else if st.mode.purpose.ForColumn? then Close(WithOperand(st, st.mode.purpose.rhs, ColumnValue, st.mode.number))
    else Close(WithOperand(st, Some(st.mode.purpose.op), LiteralValue, st.mode.number))
  }

  lemma StepClose(rest: string, at: nat, st: State)
    requires st.Fits() && at < 255
    requires st.mode.RecordTag? || (st.mode.Number? && (st.mode.purpose.ForColumn? || st.mode.purpose.ForLiteral?))
    ensures Step(['}'] + rest, at, st)
            == (if ClosedOperand(st).None? then None else Some((1, ClosedOperand(st).value)))
  {
    hide WithOperand;
  }

  /** Run from next onwards, when there is a next. */
  function Go(rest: string, at: nat, next: Option<State>): (r: Option<State>)
    requires next.Some? ==> next.value.Fits()
    ensures r.Some? ==> r.value.Fits()
  {
    if next.None? then None else Run(rest, at, next.value)
  }

  lemma RunClose(rest: string, at: nat, st: State)
    requires st.Fits() && at < 255
    requires st.mode.RecordTag? || (st.mode.Number? && (st.mode.purpose.ForColumn? || st.mode.purpose.ForLiteral?))
    ensures Run("}" + rest, at, st) == Go(rest, at + 1, ClosedOperand(st))
  {
    hide Run, Step, WithOperand;
    StepClose(rest, at, st);
    RunChar('}', rest, at, st);
  }

  /** A column or record operand, after its first character. */
  lemma RunOperand(digits: string, plus: bool, rest: string, at: nat, st: State)
    requires st.Fits() && AreDigits(digits) && at + |digits| + |PrintPlus(plus)| + 1 <= 255
    requires (st.mode.RecordTag? && digits == "")
             || (st.mode.Number? && st.mode.purpose.ForColumn? && ReadOn(st.mode.number, digits) <= 255)
    ensures var read := if st.mode.Number? then st.(mode := Number(st.mode.purpose, ReadOn(st.mode.number, digits))) else st;
            Run(digits + (PrintPlus(plus) + ("}" + rest)), at, st)
            == Go(rest, at + |digits| + |PrintPlus(plus)| + 1, ClosedOperand(WithPlus(read, plus)))
  {
    hide Run, Step, WithOperand, WithProps, ReadOn;
    var tail := PrintPlus(plus) + ("}" + rest);
    if st.mode.Number? {
      RunDigits(digits, tail, at, st);
    } else {
      assert digits + tail == tail;
    }
    var read := if st.mode.Number? then st.(mode := Number(st.mode.purpose, ReadOn(st.mode.number, digits))) else st;
    RunPlus(plus, "}" + rest, at + |digits|, read);
    RunClose(rest, at + |digits| + |PrintPlus(plus)|, WithPlus(read, plus));
  }

  /** What a tag stores, from the state in which its flags have been read. */
  function ValueStored(v: Value, st: State): (r: Option<State>)
    requires st.Fits() && IsValue(v)
    ensures r.Some? ==> r.value.Fits()
  {
    Close(WithValue(WithPlus(st, v.flags.offset1), ValueToken, TypeOf(v), NumberIn(v)))
  }

  lemma ModeIsReplaced(st: State, mode: Mode, plus: bool, tokenType: TokenType, valueType: ValueType, number: uint8)
    requires st.Fits()
    ensures Close(WithValue(WithPlus(st.(mode := mode), plus), tokenType, valueType, number))
            == Close(WithValue(WithPlus(st, plus), tokenType, valueType, number))
  {
  }

  lemma RunCount(rest: string, at: nat, st: State)
    requires st.Fits() && st.mode.StartTag? && at + 2 <= 255
    ensures Run("*}" + rest, at, st) == Go(rest, at + 2, ValueStored(NumRecords(NO_PROPS), st))
  {
    hide Run, WithValue;
    var next := st.(mode := CountTag);
    assert "*}" + rest == ['*'] + ("}" + rest);
    RunOne('*', "}" + rest, at, st, next);
    RunChar('}', rest, at + 1, next);
    ModeIsReplaced(st, CountTag, false, ValueToken, NumRecordsValue, 0);
  }

  lemma RunParent(id: string, rest: string, at: nat, st: State)
    requires st.Fits() && st.mode.StartTag? && IsNumber(id) && at + |id| + 2 <= 255
    ensures Run("^" + (id + ("}" + rest)), at, st)
            == Go(rest, at + |id| + 2, ValueStored(Parent(NO_PROPS, id), st))
  {
    hide Run, WithValue, ReadOn;
    var next := st.(mode := Number(ForParent, 0));
    RunOne('^', id + ("}" + rest), at, st, next);
    RunDigits(id, "}" + rest, at + 1, next);
    var read := st.(mode := Number(ForParent, NumberOf(id)));
    RunChar('}', rest, at + 1 + |id|, read);
    ModeIsReplaced(st, read.mode, false, ValueToken, ParentColumnValue, NumberOf(id));
  }

  lemma RunColumn(id: string, plus: bool, rest: string, at: nat, st: State)
    requires st.Fits() && st.mode.StartTag? && IsNumber(id) && at + |id| + |PrintPlus(plus)| + 2 <= 255
    ensures Run("&" + (id + (PrintPlus(plus) + ("}" + rest))), at, st)
            == Go(rest, at + |id| + |PrintPlus(plus)| + 2, ValueStored(Column(NO_PROPS.(offset1 := plus), id), st))
  {
    hide Run, WithValue, ReadOn;
    var next := st.(mode := Number(ForColumn(None), 0));
    RunOne('&', id + (PrintPlus(plus) + ("}" + rest)), at, st, next);
    RunOperand(id, plus, rest, at + 1, next);
    ModeIsReplaced(st, Number(ForColumn(None), NumberOf(id)), plus, ValueToken, ColumnValue, NumberOf(id));
  }

  lemma RunRecord(plus: bool, rest: string, at: nat, st: State)
    requires st.Fits() && st.mode.StartTag? && at + |PrintPlus(plus)| + 2 <= 255
    ensures Run("#" + (PrintPlus(plus) + ("}" + rest)), at, st)
            == Go(rest, at + |PrintPlus(plus)| + 2, ValueStored(RecordId(NO_PROPS.(offset1 := plus)), st))
  {
    hide Run, WithValue, ReadOn;
    var tail := PrintPlus(plus) + ("}" + rest);
    var next := st.(mode := RecordTag(None));
    RunOne('#', tail, at, st, next);
    assert "" + tail == tail;
    RunOperand("", plus, rest, at + 1, next);
    ModeIsReplaced(st, RecordTag(None), plus, ValueToken, RecordIdValue, 0);
  }

  lemma RunValue(v: Value, rest: string, at: nat, st: State)
    requires st.Fits() && st.mode.StartTag? && IsValue(v) && at + |PrintValue(v)| <= 255
    ensures Run(PrintValue(v) + rest, at, st) == Go(rest, at + |PrintValue(v)|, ValueStored(v, st))
  {
    hide Run, Step, WithValue, WithProps, IsNumber, NumberOf, Close;
    match v
    case Column(flags, id) =>
      assert PrintValue(v) + rest == "&" + (id + (PrintPlus(flags.offset1) + ("}" + rest)));
      RunColumn(id, flags.offset1, rest, at, st);
    case RecordId(flags) =>
      assert PrintValue(v) + rest == "#" + (PrintPlus(flags.offset1) + ("}" + rest));
      RunRecord(flags.offset1, rest, at, st);
    case NumRecords(flags) =>
      RunCount(rest, at, st);
    case Parent(flags, id) =>
      assert PrintValue(v) + rest == "^" + (id + ("}" + rest));
      RunParent(id, rest, at, st);
  }

  /** What a whole tag stores. */
  function TagStored(v: Value, st: State, at: nat): (r: Option<State>)
    requires st.Fits() && st.mode.Plain? && at < 255 && IsValue(v)
    ensures r.Some? ==> r.value.Fits()
  {
    var tag := Opened(st, at);
    if tag.None? then None else Close(WithValue(WithProps(tag.value, v.flags), ValueToken, TypeOf(v), NumberIn(v)))
  }

  lemma OpenedProps(st: State, at: nat)
    requires st.Fits() && st.mode.Plain? && at < 255 && Opened(st, at).Some?
    ensures var o := Opened(st, at).value;
            && (o.count < MAX_NUM_TOKENS || o.pastEnd)
            && PropsOf(o) == NO_PROPS
  {
  }

  lemma RunOpen(flags: Props, rest: string, at: nat, st: State)
    requires st.Fits() && st.mode.Plain? && at + 1 + |PrintFlags(flags)| <= 255
    ensures var o := Opened(st, at);
            Run("{" + (PrintFlags(flags) + rest), at, st)
            == Go(rest, at + 1 + |PrintFlags(flags)|,
                  if o.None? then None else Some(WithProps(o.value, flags.(offset1 := false))))
  {
    hide Run, WithProps, Flush;
    RunChar('{', PrintFlags(flags) + rest, at, st);
    if Opened(st, at).Some? {
      OpenedProps(st, at);
      RunFlags(flags, rest, at + 1, Opened(st, at).value);
    }
  }

  lemma PlusIsFlag(st: State, flags: Props)
    requires st.Fits()
    ensures WithPlus(WithProps(st, flags.(offset1 := false)), flags.offset1) == WithProps(st, flags)
  {
    PropsTwice(st, flags.(offset1 := false), flags);
    if st.count == MAX_NUM_TOKENS {
    } else if flags.offset1 {
      assert PropsOf(WithProps(st, flags.(offset1 := false))).(offset1 := true) == flags;
    } else {
      assert flags.(offset1 := false) == flags;
    }
  }

  lemma RunTag(v: Value, rest: string, at: nat, st: State)
    requires st.Fits() && st.mode.Plain? && IsValue(v) && at + |PrintPart(Tag(v))| <= 255
    ensures Run(PrintPart(Tag(v)) + rest, at, st) == Go(rest, at + |PrintPart(Tag(v))|, TagStored(v, st, at))
  {
    hide Run, PlainStep, WithValue, WithProps, PrintValue, PrintFlags, WithPlus, Close;
    assert PrintPart(Tag(v)) + rest == "{" + (PrintFlags(v.flags) + (PrintValue(v) + rest));
    RunOpen(v.flags, PrintValue(v) + rest, at, st);
    if Opened(st, at).Some? {
      var o := Opened(st, at).value;
      RunValue(v, rest, at + 1 + |PrintFlags(v.flags)|, WithProps(o, v.flags.(offset1 := false)));
      PlusIsFlag(o, v.flags);
    }
  }

  lemma {:induction false} RunText(text: string, rest: string, at: nat, st: State)
    requires st.Fits() && st.mode.Plain? && IsPlain(text) && at + |text| <= 255
    ensures Run(text + rest, at, st) == Run(rest, at + |text|, st.(mode := Plain(st.mode.length + |text|)))
    decreases text
  {
    hide Run;
    if text == "" {
      assert text + rest == rest;
      assert st == st.(mode := Plain(st.mode.length));
    } else {
      assert text + rest == [text[0]] + (text[1..] + rest);
      var next := st.(mode := Plain(st.mode.length + 1));
      RunOne(text[0], text[1..] + rest, at, st, next);
      RunText(text[1..], rest, at + 1, next);
    }
  }

  function RhsType(r: Rhs): ValueType {
    match r
    case Literal(_) => LiteralValue
    case OtherColumn(_) => ColumnValue
    case OwnRecord(_) => RecordIdValue
  }

  function RhsNumber(r: Rhs): uint8
    requires IsRhs(r)
  {
    match r
    case Literal(digits) => NumberOf(digits)
    case OtherColumn(id) => NumberOf(id)
    case OwnRecord(_) => 0
  }

  predicate RhsPlus(r: Rhs) {
    r.OwnRecord? && r.plus
  }

  /** What the right-hand side of a comparison stores. */
  function RhsStored(c: Comparison, st: State): (r: Option<State>)
    requires st.Fits() && IsRhs(c.rhs)
    ensures r.Some? ==> r.value.Fits()
  {
    Close(WithOperand(WithPlus(st, RhsPlus(c.rhs)), Some(c.op), RhsType(c.rhs), RhsNumber(c.rhs)))
  }

  lemma OperandModeIsReplaced(st: State, mode: Mode, plus: bool, op: Operator, valueType: ValueType, number: uint8)
    requires st.Fits()
    ensures Close(WithOperand(WithPlus(st.(mode := mode), plus), Some(op), valueType, number))
            == Close(WithOperand(WithPlus(st, plus), Some(op), valueType, number))
  {
  }

  /** The machine right after a comparison operator that has rhs behind it. */
  function AfterOperator(st: State, c: Comparison): (r: State)
    requires st.Fits()
    ensures r.Fits()
  {
    st.(mode := if c.rhs.Literal? then Number(ForLiteral(c.op), 0) else RightHandSide(c.op))
  }

  lemma RunRhs(c: Comparison, rest: string, at: nat, st: State)
    requires st.Fits() && IsRhs(c.rhs) && at + |PrintRhs(c.rhs, Bare)| <= 255
    ensures Run(PrintRhs(c.rhs, Bare) + rest, at, AfterOperator(st, c))
            == Go(rest, at + |PrintRhs(c.rhs, Bare)|, RhsStored(c, st))
  {
    hide Run, WithOperand, WithPlus, ReadOn, Close;
    var now := AfterOperator(st, c);
    match c.rhs
    case Literal(digits) =>
      assert PrintRhs(c.rhs, Bare) + rest == digits + ("}" + rest);
      RunDigits(digits, "}" + rest, at, now);
      var read := now.(mode := Number(ForLiteral(c.op), NumberOf(digits)));
      RunClose(rest, at + |digits|, read);
      NoPlus(read);
      NoPlus(st);
      OperandModeIsReplaced(st, read.mode, false, c.op, LiteralValue, NumberOf(digits));
    case OtherColumn(id) =>
      var next := st.(mode := Number(ForColumn(Some(c.op)), 0));
      assert PrintRhs(c.rhs, Bare) + rest == ['&'] + (id + (PrintPlus(false) + ("}" + rest)));
      RunOne('&', id + (PrintPlus(false) + ("}" + rest)), at, now, next);
      RunOperand(id, false, rest, at + 1, next);
      OperandModeIsReplaced(st, Number(ForColumn(Some(c.op)), NumberOf(id)), false, c.op, ColumnValue, NumberOf(id));
    case OwnRecord(plus) =>
      var next := st.(mode := RecordTag(Some(c.op)));
      var tail := PrintPlus(plus) + ("}" + rest);
      assert PrintRhs(c.rhs, Bare) + rest == ['#'] + tail;
      RunOne('#', tail, at, now, next);
      assert "" + tail == tail;
      RunOperand("", plus, rest, at + 1, next);
      OperandModeIsReplaced(st, RecordTag(Some(c.op)), plus, c.op, RecordIdValue, 0);
  }

  lemma NoPlus(st: State)
    requires st.Fits()
    ensures WithPlus(st, false) == st
  {
  }

  /** What the test of an if tag stores, from the state in which its column has been read. */
  function TestStored(test: Option<Comparison>, number: uint8, st: State): (r: Option<State>)
    requires st.Fits() && (test.Some? ==> IsRhs(test.value.rhs))
    ensures r.Some? ==> r.value.Fits()
  {
    var lhs := WithValue(st, IfLhs, ColumnValue, number);
    if lhs.None? then None
    else if test.None? then Close(lhs)
    else RhsStored(test.value, lhs.value)
  }

  lemma StepOperator(c: Comparison, rest: string, at: nat, st: State)
    requires st.Fits() && at < 255 && st.mode.Number? && st.mode.purpose.ForIfColumn? && IsRhs(c.rhs)
    ensures var lhs := WithValue(st, IfLhs, ColumnValue, st.mode.number);
            Step(PrintOperator(c.op) + (PrintRhs(c.rhs, Bare) + rest), at, st)
            == if lhs.None? then None else Some((|PrintOperator(c.op)|, AfterOperator(lhs.value, c)))
  {
    hide WithValue, WithOperand, WithProps;
    var tail := PrintRhs(c.rhs, Bare) + rest;
    var s := PrintOperator(c.op) + tail;
    assert tail[0] == PrintRhs(c.rhs, Bare)[0];
    assert s[0] == PrintOperator(c.op)[0];
    assert |PrintOperator(c.op)| == OperatorLength(c.op);
    assert s[OperatorLength(c.op)] == tail[0];
    assert OperatorAt(s) == Some(c.op) by {
      if |PrintOperator(c.op)| == 1 {
        assert s[1] == tail[0];
      } else {
        assert s[1] == PrintOperator(c.op)[1];
      }
    }
  }

  lemma RunTest(test: Option<Comparison>, rest: string, at: nat, st: State)
    requires st.Fits() && st.mode.Number? && st.mode.purpose.ForIfColumn?
    requires (test.Some? ==> IsRhs(test.value.rhs)) && at + |PrintTest(test, Bare)| <= 255
    ensures Run(PrintTest(test, Bare) + rest, at, st)
            == Go(rest, at + |PrintTest(test, Bare)|, TestStored(test, st.mode.number, st))
  {
    hide Run, RhsStored, PrintRhs, PrintOperator, IsRhs;
    if test.None? {
      hide WithOperand;
      RunChar('}', rest, at, st);
    } else {
      hide Step;
      var c := test.value;
      var s := PrintOperator(c.op) + (PrintRhs(c.rhs, Bare) + rest);
      assert PrintTest(test, Bare) + rest == s;
      OperatorIsPrinted(c.op);
      StepOperator(c, rest, at, st);
      RunStep(s, at, st);
      assert s[|PrintOperator(c.op)|..] == PrintRhs(c.rhs, Bare) + rest;
      var lhs := WithValue(st, IfLhs, ColumnValue, st.mode.number);
      if lhs.Some? {
        RunRhs(c, rest, at + |PrintOperator(c.op)|, lhs.value);
      }
    }
  }

  /** What an if tag stores, from the state in which its flags have been read. */
  function IfStored(id: string, test: Option<Comparison>, st: State): (r: Option<State>)
    requires st.Fits() && IsNumber(id) && (test.Some? ==> IsRhs(test.value.rhs))
    ensures r.Some? ==> r.value.Fits()
  {
    if st.count == MAX_NUM_TOKENS then None
    else TestStored(test, NumberOf(id), WithDetail(st, st.count, Jumps(0, 0)).(openIf := Some(st.count)))
  }

  lemma RunIf(id: string, test: Option<Comparison>, rest: string, at: nat, st: State)
    requires st.Fits() && st.mode.StartTag? && st.openIf.None?
    requires IsNumber(id) && (test.Some? ==> IsRhs(test.value.rhs))
    requires at + 2 + |id| + |PrintTest(test, Bare)| <= 255
    ensures Run("?&" + (id + (PrintTest(test, Bare) + rest)), at, st)
            == Go(rest, at + 2 + |id| + |PrintTest(test, Bare)|, IfStored(id, test, st))
  {
    hide Run, WithDetail, PrintTest, TestStored, ReadOn;
    var tail := PrintTest(test, Bare) + rest;
    var s := "?&" + (id + tail);
    assert s[0] == '?' && s[1] == '&' && s[2..] == id + tail;
    RunStep(s, at, st);
    if st.count < MAX_NUM_TOKENS {
      var next := WithDetail(st, st.count, Jumps(0, 0)).(openIf := Some(st.count), mode := Number(ForIfColumn, 0));
      RunDigits(id, tail, at + 2, next);
      RunTest(test, rest, at + 2 + |id|, next.(mode := Number(ForIfColumn, NumberOf(id))));
      TestModeIsReplaced(test, NumberOf(id),
                         WithDetail(st, st.count, Jumps(0, 0)).(openIf := Some(st.count)),
                         Number(ForIfColumn, NumberOf(id)));
    }
  }

  lemma TestModeIsReplaced(test: Option<Comparison>, number: uint8, st: State, mode: Mode)
    requires st.Fits() && (test.Some? ==> IsRhs(test.value.rhs))
    ensures TestStored(test, number, st.(mode := mode)) == TestStored(test, number, st)
  {
    ValueKeepsMode(st, mode, number);
    if WithValue(st, IfLhs, ColumnValue, number).Some? && test.Some? {
      var lhs, c := WithValue(st, IfLhs, ColumnValue, number).value, test.value;
      hide WithValue, WithOperand, Close, IsRhs, WithPlus;
      OperandModeIsReplaced(lhs, mode, RhsPlus(c.rhs), c.op, RhsType(c.rhs), RhsNumber(c.rhs));
    }
  }

  lemma ValueKeepsMode(st: State, mode: Mode, number: uint8)
    requires st.Fits()
    ensures var (a, b) := (WithValue(st.(mode := mode), IfLhs, ColumnValue, number),
                           WithValue(st, IfLhs, ColumnValue, number));
            if b.None? then a.None? else a == Some(b.value.(mode := mode))
  {
  }

  /** What the whole tag that begins a conditional stores. */
  function HeadStored(item: Item, st: State, at: nat): (r: Option<State>)
    requires st.Fits() && st.mode.Plain? && at < 255 && item.If? && IsItem(item)
    ensures r.Some? ==> r.value.Fits()
  {
    var tag := Opened(st, at);
    if tag.None? then None else IfStored(item.id, item.test, WithProps(tag.value, item.flags))
  }

  lemma RunHead(item: Item, rest: string, at: nat, st: State)
    requires st.Fits() && st.mode.Plain? && st.openIf.None? && item.If? && IsItem(item)
    requires at + |PrintHead(item, Bare)| <= 255
    ensures Run(PrintHead(item, Bare) + rest, at, st) == Go(rest, at + |PrintHead(item, Bare)|, HeadStored(item, st, at))
  {
    hide Run, PlainStep, WithProps, PrintFlags, PrintTest, IfStored, Flush;
    var tail := "?&" + (item.id + (PrintTest(item.test, Bare) + rest));
    assert PrintHead(item, Bare) + rest == "{" + (PrintFlags(item.flags) + tail);
    RunOpen(item.flags, tail, at, st);
    assert item.flags.(offset1 := false) == item.flags;
    if Opened(st, at).Some? {
      OpenKeepsIf(st, at);
      RunIf(item.id, item.test, rest, at + 1 + |PrintFlags(item.flags)|, WithProps(Opened(st, at).value, item.flags));
    }
  }

  lemma OpenKeepsIf(st: State, at: nat)
    requires st.Fits() && st.mode.Plain? && at < 255
    ensures Opened(st, at).Some? ==> Opened(st, at).value.openIf == st.openIf
  {
  }

  // ---- else and end tags ----

  function ElseStored(st: State, at: nat): (r: Option<State>)
    requires st.Fits() && st.mode.Plain? && at < 255
    ensures r.Some? ==> r.value.Fits()
  {
    var tag := Opened(st, at);
    if tag.None? then None else ElseTagStep('}', tag.value)
  }

  function EndStored(st: State, at: nat): (r: Option<State>)
    requires st.Fits() && st.mode.Plain? && at < 255
    ensures r.Some? ==> r.value.Fits()
  {
    var tag := Opened(st, at);
    if tag.None? then None else EndTagStep('}', tag.value)
  }

  lemma RunElse(rest: string, at: nat, st: State)
    requires st.Fits() && st.mode.Plain? && st.openIf.Some? && at + 3 <= 255
    ensures Run("{:}" + rest, at, st) == Go(rest, at + 3, ElseStored(st, at))
  {
    hide Run, Flush, WithProps;
    assert "{:}" + rest == ['{'] + ([':'] + (['}'] + rest));
    RunChar('{', [':'] + (['}'] + rest), at, st);
    if Opened(st, at).Some? {
      OpenKeepsIf(st, at);
      var o := Opened(st, at).value;
      RunOne(':', ['}'] + rest, at + 1, o, o.(mode := ElseTag));
      RunChar('}', rest, at + 2, o.(mode := ElseTag));
    }
  }

  lemma RunEnd(rest: string, at: nat, st: State)
    requires st.Fits() && st.mode.Plain? && st.openIf.Some? && at + 3 <= 255
    ensures Run("{;}" + rest, at, st) == Go(rest, at + 3, EndStored(st, at))
  {
    hide Run, Flush, WithProps;
    assert "{;}" + rest == ['{'] + ([';'] + (['}'] + rest));
    RunChar('{', [';'] + (['}'] + rest), at, st);
    if Opened(st, at).Some? {
      OpenKeepsIf(st, at);
      var o := Opened(st, at).value;
      RunOne(';', ['}'] + rest, at + 1, o, o.(mode := EndTag));
      RunChar('}', rest, at + 2, o.(mode := EndTag));
    }
  }
}
