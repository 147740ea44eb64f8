/** src/BitsOfData.c:980-1212: BDB_writeRecordWithFormat interprets a format string while it scans
    it.  It never looks at the tokens of tl_parseFormat; a branch that is not taken is skipped by
    scanning the text for "{:}" or "{;}". */
module FormatInterpreter {
  import opened MachineInts
  import opened Wrappers
  import opened TemplateSyntax

  // ---- the machine ----

  datatype Purpose =
    | ShowColumn(props: Props)
    | ShowParent(props: Props)
    | LeftColumn
    | RightLiteral(left: uint16, op: Option<Operator>)
    | RightColumn(left: uint16, op: Option<Operator>)

  datatype Mode =
    | Plain
    | StartTag(props: Props)
    | Number(purpose: Purpose, number: uint8)
    | CountTag(props: Props)
    | RecordTag(props: Props)
    | RightHandSide(left: uint16, op: Option<Operator>)
    | RightRecord(left: uint16, op: Option<Operator>, plus: bool)
    | SkipToElse
    | SkipToEnd
    | ElseTag
    | EndTag

  /** condition is the outcome of the last test; output is what has been written. */
  datatype State = State(mode: Mode, condition: bool, output: string)

  /** updateNumber, which lets the number wrap around. */
  function WithDigit(n: uint8, c: char): Option<uint8> {
    if IsDigit(c) then Some(ToUint8(10 * n + Digit(c))) else None
  }

  /** mu_evalCondition; without an operator nothing holds. */
  predicate Condition(left: uint16, op: Option<Operator>, right: uint16) {
    op.Some? && Holds(left, op.value, right)
  }

  function Decided(st: State, condition: bool): State {
    st.(condition := condition, mode := if condition then Plain else SkipToElse)
  }

  function Shown(st: State, text: string): State {
    st.(output := st.output + text, mode := Plain)
  }

  /** matchTag */
  predicate MatchesTag(s: string, tagChar: char) {
    |s| > 2 && s[0] == '{' && s[1] == tagChar && s[2] == '}'
  }

  function StartTagStep(s: string, st: State): (r: Option<(nat, State)>)
    requires s != "" && st.mode.StartTag?
    ensures r.Some? ==> 1 <= r.value.0 <= |s|
  {
    var props := st.mode.props;
    match s[0]
    case '&' => Some((1, st.(mode := Number(ShowColumn(props), 0))))
    case '?' => if |s| < 2 || s[1] != '&' then None else Some((2, st.(mode := Number(LeftColumn, 0))))
    case ':' => Some((1, st.(mode := ElseTag)))
    case ';' => Some((1, st.(mode := EndTag)))
    case '#' => Some((1, st.(mode := RecordTag(props))))
    case '*' => Some((1, st.(mode := CountTag(props))))
    case '^' => Some((1, st.(mode := Number(ShowParent(props), 0))))
    case 'o' => Some((1, st.(mode := StartTag(props.(leading0 := true)))))
    case 'x' => Some((1, st.(mode := StartTag(props.(asHex := true)))))
    case _ => None
  }

  function NumberStep(s: string, st: State, env: Env): (r: Option<(nat, State)>)
    requires s != "" && st.mode.Number?
    ensures r.Some? ==> 1 <= r.value.0 <= |s|
  {
    var Number(purpose, number) := st.mode;
    if s[0] == '}' && !purpose.LeftColumn? then
      Some((1, match purpose
               case ShowColumn(props) => Shown(st, env.columnText(number, props))
               case ShowParent(props) => Shown(st, env.parentText(number, props))
               case RightLiteral(left, op) => Decided(st, Condition(left, op, number))
               case RightColumn(left, op) => Decided(st, Condition(left, op, env.column(number)))))
    else if s[0] == '+' && purpose.ShowColumn? then
      Some((1, st.(mode := Number(ShowColumn(purpose.props.(offset1 := true)), number))))
    else if IsOperatorChar(s[0]) && purpose.LeftColumn? then
      var op := OperatorAt(s);
      Some((if op.Some? then OperatorLength(op.value) else 1, st.(mode := RightHandSide(env.column(number), op))))
    else
      var n := WithDigit(number, s[0]);
      if n.None? then None else Some((1, st.(mode := Number(purpose, n.value))))
  }

  /** The modes in which each round reads one character. */
  function CharStep(c: char, st: State, env: Env): Option<State> {
    match st.mode
    case Plain => Some(if c == '{' then st.(mode := StartTag(NO_PROPS)) else st.(output := st.output + [c]))
    case CountTag(props) => if c == '}' then Some(Shown(st, env.countText(props))) else None
    case RecordTag(props) =>
      if c == '+' then Some(st.(mode := RecordTag(props.(offset1 := true))))
      else if c == '}' then Some(Shown(st, env.recordText(props)))
      else None
    case RightHandSide(left, op) =>
      if c == '$' then Some(st.(mode := Number(RightLiteral(left, op), 0)))
      else if c == '#' then Some(st.(mode := RightRecord(left, op, false)))
      else if c == '&' then Some(st.(mode := Number(RightColumn(left, op), 0)))
      else None
    case RightRecord(left, op, plus) =>
      if c == '}' then Some(Decided(st, Condition(left, op, OwnRecordId(env, plus))))
      else if c == '+' then Some(st.(mode := RightRecord(left, op, true)))
      else None
    case ElseTag => if c == '}' then Some(st.(mode := if st.condition then SkipToEnd else Plain)) else None
    case EndTag => if c == '}' then Some(st.(mode := Plain)) else None
    case _ => None
  }

  /** One round of the loop: how many characters it reads and what it does. */
  function Step(s: string, st: State, env: Env): (r: Option<(nat, State)>)
    requires s != ""
    ensures r.Some? ==> 1 <= r.value.0 <= |s|
  {
    match st.mode
    case StartTag(_) => StartTagStep(s, st)
    case Number(_, _) => NumberStep(s, st, env)
    case SkipToElse => if MatchesTag(s, ':') then Some((3, st.(mode := Plain))) else Some((1, st))
    case SkipToEnd => if MatchesTag(s, ';') then Some((3, st.(mode := Plain))) else Some((1, st))
    case _ =>
      var next := CharStep(s[0], st, env);
      if next.None? then None else Some((1, next.value))
  }

  function Run(s: string, st: State, env: Env): Option<State>
    decreases |s|
  {
    if s == "" then Some(st)
    else
      var next := Step(s, st, env);
      if next.None? then None else Run(s[next.value.0..], next.value.1, env)
  }

  const START := State(Plain, false, "")

  /** What BDB_writeRecordWithFormat writes, before it pads the buffer. Its 8-bit index finds the
      terminator of no longer string. */
  function Interpret(format: string, env: Env): Option<string>
    requires |format| <= 255
  {
    var last := Run(format, START, env);
    if last.None? then None else Some(last.value.output)
  }

  // ---- BDB_writeRecordWithFormat ----

  datatype CState =
    | PLAIN_TEXT | START_TAG | COLUMN_ID_TAG | IF_TAG_COLUMN_ID | IF_TAG_RIGHT_HAND_SIDE | IF_LITERAL_VALUE
    | IF_RECORD_ID | IF_OTHER_COLUMN | RECORD_ID_TAG | NUM_RECORDS_TAG | PARENT_TAG | SKIP_TO_ELSE | ELSE_TAG
    | SKIP_TO_ENDIF | ENDIF_TAG

  /** The local variables of BDB_writeRecordWithFormat, and the text in the write buffer. */
  datatype Locals = Locals(
    i: nat,
    state: CState,
    condition: bool,
    operator: Option<Operator>,
    number: uint8,
    value: uint16,
    properties: Props,
    output: string)
  {
    function CurrentMode(): Mode {
      match state
      case PLAIN_TEXT => Plain
      case START_TAG => StartTag(properties)
      case COLUMN_ID_TAG => Number(ShowColumn(properties), number)
      case IF_TAG_COLUMN_ID => Number(LeftColumn, number)
      case IF_TAG_RIGHT_HAND_SIDE => RightHandSide(value, operator)
      case IF_LITERAL_VALUE => Number(RightLiteral(value, operator), number)
      case IF_RECORD_ID => RightRecord(value, operator, properties.offset1)
      case IF_OTHER_COLUMN => Number(RightColumn(value, operator), number)
      case RECORD_ID_TAG => RecordTag(properties)
      case NUM_RECORDS_TAG => CountTag(properties)
      case PARENT_TAG => Number(ShowParent(properties), number)
      case SKIP_TO_ELSE => SkipToElse
      case ELSE_TAG => ElseTag
      case SKIP_TO_ENDIF => SkipToEnd
      case ENDIF_TAG => EndTag
    }

    /** The state of the machine that the variables stand for. */
    function Machine(): State {
      State(CurrentMode(), condition, output)
    }

    predicate AreConsistent() {
      && (state == IF_TAG_COLUMN_ID || state == IF_TAG_RIGHT_HAND_SIDE ==> !properties.offset1)
      && (state == START_TAG ==> number == 0 && !properties.offset1)
      && (state == IF_TAG_RIGHT_HAND_SIDE ==> number == 0)
    }
  }

  /** The round of the loop that started with w has been done: v are the variables after it, with i
      at the last character that was read. */
  predicate IsDone(format: string, w: Locals, env: Env, ok: bool, v: Locals)
    requires w.i < |format|
  {
    && (ok ==> w.i <= v.i < |format| && v.AreConsistent())
    && Step(format[w.i..], w.Machine(), env) == (if ok then Some((v.i + 1 - w.i, v.Machine())) else None)
  }

  function Spaces(n: nat): string { seq(n, _ => ' ') }

  function Padded(text: string, size: nat): string {
    if |text| < size then text + Spaces(size - |text|) else text
  }

  lemma RunStep(s: string, st: State, env: Env)
    ensures s == "" ==> Run(s, st, env) == Some(st)
    ensures s != "" && Step(s, st, env).None? ==> Run(s, st, env).None?
    ensures s != "" && Step(s, st, env).Some? ==>
              Run(s, st, env) == Run(s[Step(s, st, env).value.0..], Step(s, st, env).value.1, env)
  {
  }

  lemma StepWrites(s: string, st: State, env: Env)
    requires s != ""
    ensures Step(s, st, env).Some? ==> |st.output| <= |Step(s, st, env).value.1.output|
  {
    hide Condition, OperatorAt, WithDigit;
  }

  /** Nothing that has been written is taken back. */
  lemma {:induction false} OutputGrows(s: string, st: State, env: Env)
    ensures Run(s, st, env).Some? ==> |st.output| <= |Run(s, st, env).value.output|
    decreases |s|
  {
    hide Step;
    RunStep(s, st, env);
    if s != "" && Step(s, st, env).Some? {
      StepWrites(s, st, env);
      OutputGrows(s[Step(s, st, env).value.0..], Step(s, st, env).value.1, env);
    }
  }

  /** The first character of a tag, or a flag. */
  method InStartTag(format: string, w: Locals, env: Env) returns (ok: bool, v: Locals)
    requires w.i < |format| && w.AreConsistent()
    requires w.state == START_TAG
    ensures IsDone(format, w, env, ok, v)
  {
    ok, v := false, w;
    var chr := format[w.i];
    match chr {
      case '&' => v := v.(state := COLUMN_ID_TAG);
      case '?' =>
        if |format| <= v.i + 1 || format[v.i + 1] != '&' {
          return;
        }
        v := v.(i := v.i + 1, state := IF_TAG_COLUMN_ID);
      case ':' => v := v.(state := ELSE_TAG);
      case ';' => v := v.(state := ENDIF_TAG);
      case '#' => v := v.(state := RECORD_ID_TAG);
      case '*' => v := v.(state := NUM_RECORDS_TAG);
      case '^' => v := v.(state := PARENT_TAG);
      case 'o' => v := v.(properties := v.properties.(leading0 := true));
      case 'x' => v := v.(properties := v.properties.(asHex := true));
      case _ => return;
    }
    ok := true;
  }

  /** Tags that write a value. */
  method InValueTag(format: string, w: Locals, env: Env) returns (ok: bool, v: Locals)
    requires w.i < |format| && w.AreConsistent()
    requires w.state in {COLUMN_ID_TAG, NUM_RECORDS_TAG, RECORD_ID_TAG, PARENT_TAG}
    ensures IsDone(format, w, env, ok, v)
  {
    ok, v := false, w;
    var chr := format[w.i];
    match w.state {
      case COLUMN_ID_TAG =>
        if chr == '}' {
          v := v.(output := v.output + env.columnText(v.number, v.properties), state := PLAIN_TEXT);
        } else if chr == '+' {
          v := v.(properties := v.properties.(offset1 := true));
        } else if IsDigit(chr) {
          v := v.(number := ToUint8(v.number * 10 + Digit(chr)));
        } else {
          return;
        }
      case NUM_RECORDS_TAG =>
        if chr != '}' {
          return;
        }
        v := v.(output := v.output + env.countText(v.properties), state := PLAIN_TEXT);
      case RECORD_ID_TAG =>
        if chr == '+' {
          v := v.(properties := v.properties.(offset1 := true));
        } else if chr == '}' {
          v := v.(output := v.output + env.recordText(v.properties), state := PLAIN_TEXT);
        } else {
          return;
        }
      case PARENT_TAG =>
        if chr == '}' {
          v := v.(output := v.output + env.parentText(v.number, v.properties), state := PLAIN_TEXT);
        } else if IsDigit(chr) {
          v := v.(number := ToUint8(v.number * 10 + Digit(chr)));
        } else {
          return;
        }
      case _ =>
    }
    ok := true;
  }

  /** The column and the operator of a test. */
  method InIfTag(format: string, w: Locals, env: Env) returns (ok: bool, v: Locals)
    requires w.i < |format| && w.AreConsistent()
    requires w.state == IF_TAG_COLUMN_ID || w.state == IF_TAG_RIGHT_HAND_SIDE
    ensures IsDone(format, w, env, ok, v)
  {
    ok, v := false, w;
    var chr := format[w.i];
    match w.state {
      case IF_TAG_COLUMN_ID =>
        if IsOperatorChar(chr) {
          v := v.(operator := OperatorAt(format[v.i..]));
          if v.operator.Some? && OperatorLength(v.operator.value) == 2 {
            v := v.(i := v.i + 1);
          }
          v := v.(value := env.column(v.number), number := 0, state := IF_TAG_RIGHT_HAND_SIDE);
        } else if IsDigit(chr) {
          v := v.(number := ToUint8(v.number * 10 + Digit(chr)));
        } else {
          return;
        }
      case IF_TAG_RIGHT_HAND_SIDE =>
        if chr == '$' {
          v := v.(state := IF_LITERAL_VALUE);
        } else if chr == '#' {
          v := v.(state := IF_RECORD_ID);
        } else if chr == '&' {
          v := v.(state := IF_OTHER_COLUMN);
        } else {
          return;
        }
      case _ =>
    }
    ok := true;
  }

  /** The right-hand side of a test, which decides it. */
  method InRightHandSide(format: string, w: Locals, env: Env) returns (ok: bool, v: Locals)
    requires w.i < |format| && w.AreConsistent()
    requires w.state == IF_LITERAL_VALUE || w.state == IF_RECORD_ID || w.state == IF_OTHER_COLUMN
    ensures IsDone(format, w, env, ok, v)
  {
    ok, v := false, w;
    var chr := format[w.i];
    match w.state {
      case IF_LITERAL_VALUE =>
        if chr == '}' {
          v := v.(condition := Condition(v.value, v.operator, v.number));
          v := v.(state := if v.condition then PLAIN_TEXT else SKIP_TO_ELSE);
        } else if IsDigit(chr) {
          v := v.(number := ToUint8(v.number * 10 + Digit(chr)));
        } else {
          return;
        }
      case IF_RECORD_ID =>
        if chr == '}' {
          var rhs: int := env.recordId;
          if v.properties.offset1 {
            rhs := ToUint8(rhs + 1);
          }
          v := v.(condition := Condition(v.value, v.operator, rhs));
          v := v.(state := if v.condition then PLAIN_TEXT else SKIP_TO_ELSE);
        } else if chr == '+' {
          v := v.(properties := v.properties.(offset1 := true));
        } else {
          return;
        }
      case IF_OTHER_COLUMN =>
        if chr == '}' {
          v := v.(condition := Condition(v.value, v.operator, env.column(v.number)));
          v := v.(state := if v.condition then PLAIN_TEXT else SKIP_TO_ELSE);
        } else if IsDigit(chr) {
          v := v.(number := ToUint8(v.number * 10 + Digit(chr)));
        } else {
          return;
        }
      case _ =>
    }
    ok := true;
  }

  /** Text, skipped text, and the tags that bound branches. */
  method InText(format: string, w: Locals, env: Env) returns (ok: bool, v: Locals)
    requires w.i < |format| && w.AreConsistent()
    requires w.state in {PLAIN_TEXT, SKIP_TO_ELSE, SKIP_TO_ENDIF, ELSE_TAG, ENDIF_TAG}
    ensures IsDone(format, w, env, ok, v)
  {
    ok, v := false, w;
    var chr := format[w.i];
    match w.state {
      case PLAIN_TEXT =>
        if chr == '{' {
          v := v.(number := 0, properties := NO_PROPS, state := START_TAG);
        } else {
          v := v.(output := v.output + [chr]);
        }
      case SKIP_TO_ELSE =>
        if MatchesTag(format[v.i..], ':') {
          v := v.(i := v.i + 2, state := PLAIN_TEXT);
        }
      case SKIP_TO_ENDIF =>
        if MatchesTag(format[v.i..], ';') {
          v := v.(i := v.i + 2, state := PLAIN_TEXT);
        }
      case ELSE_TAG =>
        if chr != '}' {
          return;
        }
        v := v.(state := if v.condition then SKIP_TO_ENDIF else PLAIN_TEXT);
      case ENDIF_TAG =>
        if chr != '}' {
          return;
        }
        v := v.(state := PLAIN_TEXT);
      case _ =>
    }
    ok := true;
  }

  /** The body of the loop. */
  method InState(format: string, w: Locals, env: Env) returns (ok: bool, v: Locals)
    requires w.i < |format| && w.AreConsistent()
    ensures IsDone(format, w, env, ok, v)
  {
    hide IsDone;
    match w.state {
      case START_TAG => ok, v := InStartTag(format, w, env);
      case COLUMN_ID_TAG => ok, v := InValueTag(format, w, env);
      case NUM_RECORDS_TAG => ok, v := InValueTag(format, w, env);
      case RECORD_ID_TAG => ok, v := InValueTag(format, w, env);
      case PARENT_TAG => ok, v := InValueTag(format, w, env);
      case IF_TAG_COLUMN_ID => ok, v := InIfTag(format, w, env);
      case IF_TAG_RIGHT_HAND_SIDE => ok, v := InIfTag(format, w, env);
      case IF_LITERAL_VALUE => ok, v := InRightHandSide(format, w, env);
      case IF_RECORD_ID => ok, v := InRightHandSide(format, w, env);
      case IF_OTHER_COLUMN => ok, v := InRightHandSide(format, w, env);
      case _ => ok, v := InText(format, w, env);
    }
  }

  /** Pads the write buffer with spaces. */
  method Pad(text: string, bufferSize: uint8) returns (output: string)
    ensures output == Padded(text, bufferSize)
  {
    output := text;
    while |output| < bufferSize
      invariant |text| <= |output| && (|output| <= bufferSize || output == text)
      invariant output == text + Spaces(|output| - |text|)
      decreases bufferSize - |output|
    {
      output := output + [' '];
    }
  }

  /** accepted is false where an assert of the code fails: the interpreter's own, and that of
      src/WriteColumns.c when the text does not fit. bufferSize is maxStringBufferSize. */
  method WriteRecordWithFormat(env: Env, format: string, bufferSize: uint8) returns (accepted: bool, output: string)
    requires |format| <= 255
    ensures accepted <==> Interpret(format, env).Some? && |Interpret(format, env).value| <= bufferSize
    ensures accepted ==> output == Padded(Interpret(format, env).value, bufferSize)
  {
    hide Run, Step;
    var v := Locals(0, PLAIN_TEXT, false, None, 0, 0, NO_PROPS, "");
    accepted, output := false, "";
    assert format[0..] == format;
    while v.i < |format|
      invariant v.i <= |format| && v.AreConsistent()
      invariant Run(format, START, env) == Run(format[v.i..], v.Machine(), env) && |v.output| <= bufferSize
      decreases |format| - v.i
    {
      ghost var at := v.i;
      RunStep(format[at..], v.Machine(), env);
      var ok;
      ok, v := InState(format, v, env);
      if !ok {
        return;
      }
      v := v.(i := v.i + 1);
      assert format[v.i..] == format[at..][v.i - at..];
      if |v.output| > bufferSize { // increaseCursorPosition asserts
        OutputGrows(format[v.i..], v.Machine(), env);
        return;
      }
    }
    RunStep(format[v.i..], v.Machine(), env);
    accepted := true;
    output := Pad(v.output, bufferSize);
  }
}
