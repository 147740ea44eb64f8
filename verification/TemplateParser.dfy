/** src/TemplateLanguage.c: tl_parseFormat compiles a format string to an array of tokens.
    The loop is specified by a machine over the rest of the string; failed asserts are None. */
module TemplateParser {
  import opened MachineInts
  import opened Wrappers
  import opened TemplateSyntax

  const MAX_NUM_TOKENS := 20
  const NOT_IN_IF_TAG: uint8 := 0xFF

  datatype TokenType = Invalid | TextToken | ValueToken | IfLhs | IfRhs

  datatype ValueType = ColumnValue | RecordIdValue | NumRecordsValue | ParentColumnValue | LiteralValue

  /** The members of a token that share memory: the last one written. */
  datatype Detail =
    | Unset
    | Span(start: uint8, length: uint8)
    | Jumps(elseIndex: uint8, endIndex: uint8)
    | IfOperator(op: Operator)

  datatype Token = Token(tokenType: TokenType, valueType: ValueType, number: uint8, props: Props, detail: Detail)

  // ---- the machine ----

  datatype Purpose = ForColumn(rhs: Option<Operator>) | ForParent | ForIfColumn | ForLiteral(op: Operator)

  datatype Mode =
    | Plain(length: nat)
    | StartTag
    | Number(purpose: Purpose, number: uint8)
    | RecordTag(rhs: Option<Operator>)
    | CountTag
    | RightHandSide(op: Operator)
    | ElseTag
    | EndTag

  /** count is the C variable tokenNo.  pastEnd records that the code wrote format flags at index
      MAX_NUM_TOKENS, one past the array. */
  datatype State = State(mode: Mode, tokens: seq<Token>, count: nat, openIf: Option<uint8>, pastEnd: bool)
  {
    predicate Fits() {
      && |tokens| == MAX_NUM_TOKENS
      && count <= MAX_NUM_TOKENS
      && (openIf.Some? ==> openIf.value < MAX_NUM_TOKENS)
    }
  }

  function Invalidated(tokens: seq<Token>, i: nat): (r: seq<Token>)
    ensures |r| == |tokens|
  {
    if i < |tokens| then tokens[i := tokens[i].(tokenType := Invalid)] else tokens
  }

  /** Complete the current token and go on to the next. */
  function Stored(st: State, token: Token): (r: Option<State>)
    requires st.Fits()
    ensures r.Some? ==> r.value.Fits()
    ensures r.None? <==> st.count == MAX_NUM_TOKENS
  {
    if st.count == MAX_NUM_TOKENS then None
    else
      Some(st.(tokens := Invalidated(st.tokens[st.count := token], st.count + 1), count := st.count + 1))
  }

  function WithText(st: State, start: uint8, length: uint8): (r: Option<State>)
    requires st.Fits()
    ensures r.Some? ==> r.value.Fits()
    ensures r.None? <==> st.count == MAX_NUM_TOKENS
  {
    if st.count == MAX_NUM_TOKENS then None
    else Stored(st, st.tokens[st.count].(tokenType := TextToken, detail := Span(start, length)))
  }

  function WithValue(st: State, tokenType: TokenType, valueType: ValueType, number: uint8): (r: Option<State>)
    requires st.Fits()
    ensures r.Some? ==> r.value.Fits()
    ensures r.None? <==> st.count == MAX_NUM_TOKENS
  {
    if st.count == MAX_NUM_TOKENS then None
    else Stored(st, st.tokens[st.count].(tokenType := tokenType, valueType := valueType, number := number))
  }

  /** A value of a tag, or the right-hand side of a comparison. */
  function WithOperand(st: State, rhs: Option<Operator>, valueType: ValueType, number: uint8): (r: Option<State>)
    requires st.Fits()
    ensures r.Some? ==> r.value.Fits()
    ensures r.None? <==> st.count == MAX_NUM_TOKENS
  {
    if rhs.None? then WithValue(st, ValueToken, valueType, number)
    else if st.count == MAX_NUM_TOKENS then None
    else
      WithValue(st.(tokens := st.tokens[st.count := st.tokens[st.count].(detail := IfOperator(rhs.value))]),
                IfRhs, valueType, number)
  }

  /** Set the flags of the current token, when there is one. */
  function WithProps(st: State, props: Props): (r: State)
    requires st.Fits()
    ensures r.Fits() && r.mode == st.mode && r.count == st.count && r.openIf == st.openIf
  {
    if st.count == MAX_NUM_TOKENS then st.(pastEnd := true)
    else st.(tokens := st.tokens[st.count := st.tokens[st.count].(props := props)])
  }

  function PropsOf(st: State): Props
    requires st.Fits()
  {
    if st.count == MAX_NUM_TOKENS then NO_PROPS else st.tokens[st.count].props
  }

  function WithDetail(st: State, i: nat, detail: Detail): (r: State)
    requires st.Fits()
    ensures r.Fits()
  {
    if i >= MAX_NUM_TOKENS then st
    else st.(tokens := st.tokens[i := st.tokens[i].(detail := detail)])
  }

  function JumpsOf(token: Token): (r: Detail)
    ensures r.Jumps?
  {
    if token.detail.Jumps? then token.detail else Jumps(0, 0)
  }

  /** updateNumber, with its two asserts. */
  function WithDigit(n: uint8, c: char): Option<uint8> {
    if !IsDigit(c) || 10 * n + Digit(c) > 255 then None else Some(10 * n + Digit(c))
  }

  function Close(st: Option<State>): (r: Option<State>)
    requires st.Some? ==> st.value.Fits()
    ensures r.Some? ==> r.value.Fits()
  {
    if st.None? then None else Some(st.value.(mode := Plain(0)))
  }

  function Flush(st: State, at: nat): (r: Option<State>)
    requires st.Fits() && at <= 255
    ensures r.Some? ==> r.value.Fits()
  {
    if st.mode.Plain? && 0 < st.mode.length <= at then WithText(st, at - st.mode.length, st.mode.length) else Some(st)
  }

  function PlainStep(c: char, at: nat, st: State): (r: Option<State>)
    requires st.Fits() && st.mode.Plain? && at < 255
    ensures r.Some? ==> r.value.Fits()
  {
    if c == '{' then
      var flushed := Flush(st, at);
      if flushed.None? then None
      else Some(WithProps(flushed.value, NO_PROPS).(mode := StartTag))
    else if c == '}' then None
    else Some(st.(mode := Plain(st.mode.length + 1)))
  }

  /** The first character of a tag, or a format flag before it.  The tag "?&" takes two characters;
      with no token left it fails here, where the code fails when it stores the left-hand side. */
  function StartTagStep(s: string, st: State): (r: Option<(nat, State)>)
    requires s != "" && st.Fits()
    ensures r.Some? ==> r.value.1.Fits() && 1 <= r.value.0 <= |s|
  {
    match s[0]
    case '&' => Some((1, st.(mode := Number(ForColumn(None), 0))))
    case '#' => Some((1, st.(mode := RecordTag(None))))
    case '*' => Some((1, st.(mode := CountTag)))
    case '^' => Some((1, st.(mode := Number(ForParent, 0))))
    case '?' =>
      if |s| < 2 || s[1] != '&' || st.openIf.Some? || st.count == MAX_NUM_TOKENS then None
      else Some((2, WithDetail(st, st.count, Jumps(0, 0)).(openIf := Some(st.count), mode := Number(ForIfColumn, 0))))
    case ':' => if st.openIf.None? then None else Some((1, st.(mode := ElseTag)))
    case ';' => if st.openIf.None? then None else Some((1, st.(mode := EndTag)))
    case 'o' => Some((1, WithProps(st, PropsOf(st).(leading0 := true))))
    case 'x' => Some((1, WithProps(st, PropsOf(st).(asHex := true))))
    case _ => None
  }

  /** A comparison operator of one or two characters; the character after it tells a literal. */
  function OperatorStep(s: string, st: State, number: uint8): (r: Option<(nat, State)>)
    requires s != "" && st.Fits()
    ensures r.Some? ==> r.value.1.Fits() && 1 <= r.value.0 <= |s|
  {
    var stored := WithValue(st, IfLhs, ColumnValue, number);
    var op := OperatorAt(s);
    if stored.None? || op.None? then None
    else
      var n := OperatorLength(op.value);
      Some((n, stored.value.(mode := if n < |s| && IsDigit(s[n]) then Number(ForLiteral(op.value), 0)
                                     else RightHandSide(op.value))))
  }

  function NumberStep(s: string, st: State): (r: Option<(nat, State)>)
    requires s != "" && st.Fits() && st.mode.Number?
    ensures r.Some? ==> r.value.1.Fits() && 1 <= r.value.0 <= |s|
  {
    var Number(purpose, number) := st.mode;
    if s[0] == '}' then
      var stored := Close(match purpose
                          case ForColumn(rhs) => WithOperand(st, rhs, ColumnValue, number)
                          case ForParent => WithValue(st, ValueToken, ParentColumnValue, number)
                          case ForIfColumn => WithValue(st, IfLhs, ColumnValue, number)
                          case ForLiteral(op) => WithOperand(st, Some(op), LiteralValue, number));
      if stored.None? then None else Some((1, stored.value))
    else if purpose.ForColumn? && s[0] == '+' then Some((1, WithProps(st, PropsOf(st).(offset1 := true))))
    else if purpose.ForIfColumn? && IsOperatorChar(s[0]) then OperatorStep(s, st, number)
    else
      var n := WithDigit(number, s[0]);
      if n.None? then None else Some((1, st.(mode := Number(purpose, n.value))))
  }

  function RecordTagStep(c: char, st: State): (r: Option<State>)
    requires st.Fits() && st.mode.RecordTag?
    ensures r.Some? ==> r.value.Fits()
  {
    if c == '+' then Some(WithProps(st, PropsOf(st).(offset1 := true)))
    else if c == '}' then Close(WithOperand(st, st.mode.rhs, RecordIdValue, 0))
    else None
  }

  function RightHandSideStep(c: char, st: State): (r: Option<State>)
    requires st.Fits() && st.mode.RightHandSide?
    ensures r.Some? ==> r.value.Fits()
  {
    if c == '#' then Some(st.(mode := RecordTag(Some(st.mode.op))))
    else if c == '&' then Some(st.(mode := Number(ForColumn(Some(st.mode.op)), 0)))
    else None
  }

  function ElseTagStep(c: char, st: State): (r: Option<State>)
    requires st.Fits()
    ensures r.Some? ==> r.value.Fits()
  {
    if c != '}' || st.openIf.None? || JumpsOf(st.tokens[st.openIf.value]).elseIndex != 0 then None
    else
      var jumps := JumpsOf(st.tokens[st.openIf.value]);
      Some(WithDetail(st, st.openIf.value, jumps.(elseIndex := st.count)).(mode := Plain(0)))
  }

  function EndTagStep(c: char, st: State): (r: Option<State>)
    requires st.Fits()
    ensures r.Some? ==> r.value.Fits()
  {
    if c != '}' || st.openIf.None? then None
    else
      var jumps := JumpsOf(st.tokens[st.openIf.value]);
      Some(WithDetail(st, st.openIf.value, jumps.(endIndex := st.count)).(openIf := None, mode := Plain(0)))
  }

  /** One round of the loop at character number at: how many characters it reads and what it does. */
  function Step(s: string, at: nat, st: State): (r: Option<(nat, State)>)
    requires s != "" && st.Fits()
    ensures r.Some? ==> r.value.1.Fits() && 1 <= r.value.0 <= |s|
  {
    if at >= 255 then None
    else if st.mode.StartTag? then StartTagStep(s, st)
    else if st.mode.Number? then NumberStep(s, st)
    else
      var next :=
        match st.mode
        case Plain(_) => PlainStep(s[0], at, st)
        case RecordTag(_) => RecordTagStep(s[0], st)
        case CountTag =>
          if s[0] == '}' then Close(WithValue(st, ValueToken, NumRecordsValue, 0)) else None
        case RightHandSide(_) => RightHandSideStep(s[0], st)
        case ElseTag => ElseTagStep(s[0], st)
        case _ => EndTagStep(s[0], st);
      if next.None? then None else Some((1, next.value))
  }

  function Run(s: string, at: nat, st: State): (r: Option<State>)
    requires st.Fits()
    ensures r.Some? ==> r.value.Fits()
    decreases |s|
  {
    if s == "" then Some(st)
    else
      var next := Step(s, at, st);
      if next.None? then None else Run(s[next.value.0..], at + next.value.0, next.value.1)
  }

  lemma RunStep(s: string, at: nat, st: State)
    requires st.Fits()
    ensures s == "" ==> Run(s, at, st) == Some(st)
    ensures s != "" && at >= 255 ==> Run(s, at, st).None?
    ensures s != "" && Step(s, at, st).None? ==> Run(s, at, st).None?
    ensures s != "" && Step(s, at, st).Some? ==>
              var (n, next) := Step(s, at, st).value;
              Run(s, at, st) == Run(s[n..], at + n, next)
  {
    assert s != "" && at >= 255 ==> Step(s, at, st).None?;
    hide Step;
  }

  function Initial(tokens: seq<Token>): State
    requires |tokens| == MAX_NUM_TOKENS
  {
    State(Plain(0), Invalidated(tokens, 0), 0, None, false)
  }

  /** The end of the format string: the last text is stored, and three asserts. */
  function Finished(st: State, length: nat): (r: Option<State>)
    requires st.Fits()
    ensures r.Some? ==> r.value.Fits()
  {
    if length > 255 || !st.mode.Plain? || st.openIf.Some? then None
    else
      var flushed := Flush(st, length);
      if flushed.None? || flushed.value.count == 0 then None else flushed
  }

  /** What tl_parseFormat makes of a format string when earlier calls left these tokens behind. */
  function Parse(format: string, tokens: seq<Token>): (r: Option<State>)
    requires |tokens| == MAX_NUM_TOKENS
    ensures r.Some? ==> r.value.Fits()
  {
    var last := Run(format, 0, Initial(tokens));
    if last.None? then None else Finished(last.value, |format|)
  }

  // ---- tl_parseFormat ----

  datatype CState =
    | PLAIN_TEXT | START_TAG | COLUMN_ID | RECORD_ID | NUM_RECORDS | PARENT_COLUMN_ID | IF_LITERAL_VALUE
    | IF_TAG_LEFT_HAND_SIDE | IF_TAG_RIGHT_HAND_SIDE | ELSE_TAG | ENDIF_TAG

  /** The local variables of tl_parseFormat. */
  datatype Locals = Locals(
    i: nat,
    state: CState,
    number: uint8,
    operator: Option<Operator>,
    tokenNo: nat,
    ifTokenNo: uint8,
    tokenType: TokenType,
    plainTxtLen: uint8,
    plainTxtStart: uint8,
    pastEnd: bool)
  {
    /** The right-hand side that tokenType and operator stand for. */
    function Rhs(): Option<Operator> {
      if tokenType == IfRhs then operator else None
    }

    function Op(): Operator {
      if operator.Some? then operator.value else Equal
    }

    function CurrentMode(): Mode {
      match state
      case PLAIN_TEXT => Plain(plainTxtLen)
      case START_TAG => StartTag
      case COLUMN_ID => Number(ForColumn(Rhs()), number)
      case RECORD_ID => RecordTag(Rhs())
      case NUM_RECORDS => CountTag
      case PARENT_COLUMN_ID => Number(ForParent, number)
      case IF_LITERAL_VALUE => Number(ForLiteral(Op()), number)
      case IF_TAG_LEFT_HAND_SIDE => Number(ForIfColumn, number)
      case IF_TAG_RIGHT_HAND_SIDE => RightHandSide(Op())
      case ELSE_TAG => ElseTag
      case ENDIF_TAG => EndTag
    }

    /** The state of the machine that the variables and the array stand for. */
    function Machine(tokens: seq<Token>): State {
      State(CurrentMode(), tokens, tokenNo, if ifTokenNo == NOT_IN_IF_TAG then None else Some(ifTokenNo), pastEnd)
    }

    predicate AreConsistent() {
      && tokenNo <= MAX_NUM_TOKENS
      && (ifTokenNo < MAX_NUM_TOKENS || ifTokenNo == NOT_IN_IF_TAG)
      && (state != PLAIN_TEXT ==> plainTxtLen == 0)
      && (plainTxtLen > 0 ==> plainTxtStart == i - plainTxtLen)
      && (state == START_TAG ==> operator.None? && number == 0)
      && (state == IF_TAG_RIGHT_HAND_SIDE ==> number == 0)
      && (state == COLUMN_ID || state == RECORD_ID ==>
            if operator.Some? then tokenType == IfRhs else tokenType == ValueToken)
      && (state == IF_LITERAL_VALUE || state == IF_TAG_RIGHT_HAND_SIDE ==> operator.Some? && tokenType == IfRhs)
    }
  }

  class Parser {
    /** The static array FormatTokens, kept between calls. */
    const tokens: array<Token>

    constructor ()
      ensures fresh(tokens) && tokens.Length == MAX_NUM_TOKENS
      ensures forall i :: 0 <= i < MAX_NUM_TOKENS ==> tokens[i] == Token(Invalid, ColumnValue, 0, NO_PROPS, Unset)
    {
      tokens := new Token[MAX_NUM_TOKENS](_ => Token(Invalid, ColumnValue, 0, NO_PROPS, Unset));
    }

    ghost predicate Valid() { tokens.Length == MAX_NUM_TOKENS }

    method IncreaseTokenNo(tokenNo: nat) returns (next: nat)
      requires Valid()
      modifies tokens
      ensures next == tokenNo + 1
      ensures tokens[..] == Invalidated(old(tokens[..]), next)
    {
      next := tokenNo + 1;
      if next < MAX_NUM_TOKENS {
        tokens[next] := tokens[next].(tokenType := Invalid);
      }
    }

    ghost predicate IsTokensOf(st: State, tokenNo: nat)
      reads this, tokens
    {
      Valid() && st.Fits() && st.tokens == tokens[..] && st.count == tokenNo
    }

    /** The first token is marked before anything is parsed. */
    method InvalidateFirst()
      requires Valid()
      modifies tokens
      ensures tokens[..] == Invalidated(old(tokens[..]), 0)
    {
      tokens[0] := tokens[0].(tokenType := Invalid);
    }

    method StoreText(ghost st: State, tokenNo: nat, txtStart: uint8, txtLength: uint8) returns (ok: bool, next: nat)
      requires IsTokensOf(st, tokenNo)
      modifies tokens
      ensures WithText(st, txtStart, txtLength)
              == (if ok then Some(st.(tokens := tokens[..], count := next)) else None)
    {
      next := tokenNo;
      if tokenNo >= MAX_NUM_TOKENS {
        return false, next;
      }
      tokens[tokenNo] := tokens[tokenNo].(tokenType := TextToken);
      tokens[tokenNo] := tokens[tokenNo].(detail := Span(txtStart, txtLength));
      assert tokens[..] == st.tokens[tokenNo := tokens[tokenNo]];
      next := IncreaseTokenNo(tokenNo);
      ok := true;
    }

    method StoreValue(ghost st: State, tokenNo: nat, tokenType: TokenType, valueType: ValueType, number: uint8)
      returns (ok: bool, next: nat)
      requires IsTokensOf(st, tokenNo)
      modifies tokens
      ensures WithValue(st, tokenType, valueType, number)
              == (if ok then Some(st.(tokens := tokens[..], count := next)) else None)
    {
      next := tokenNo;
      if tokenNo >= MAX_NUM_TOKENS {
        return false, next;
      }
      tokens[tokenNo] := tokens[tokenNo].(tokenType := tokenType);
      tokens[tokenNo] := tokens[tokenNo].(valueType := valueType);
      tokens[tokenNo] := tokens[tokenNo].(number := number);
      assert tokens[..] == st.tokens[tokenNo := tokens[tokenNo]];
      next := IncreaseTokenNo(tokenNo);
      ok := true;
    }

    method StoreValidOperator(tokenNo: nat, operator: Option<Operator>)
      requires Valid()
      modifies tokens
      ensures tokens[..] == (if operator.Some? && tokenNo < MAX_NUM_TOKENS
                             then old(tokens[..])[tokenNo := old(tokens[..])[tokenNo].(detail := IfOperator(operator.value))]
                             else old(tokens[..]))
    {
      if operator.Some? && tokenNo < MAX_NUM_TOKENS {
        tokens[tokenNo] := tokens[tokenNo].(detail := IfOperator(operator.value));
      }
    }

    /** The store of the operator and then of the value at the end of an operand. */
    method StoreOperand(ghost st: State, tokenNo: nat, tokenType: TokenType, operator: Option<Operator>,
                        valueType: ValueType, number: uint8)
      returns (ok: bool, next: nat)
      requires IsTokensOf(st, tokenNo)
      requires if operator.Some? then tokenType == IfRhs else tokenType == ValueToken
      modifies tokens
      ensures WithOperand(st, operator, valueType, number)
              == (if ok then Some(st.(tokens := tokens[..], count := next)) else None)
    {
      StoreValidOperator(tokenNo, operator);
      ok, next := StoreValue(st.(tokens := tokens[..]), tokenNo, tokenType, valueType, number);
    }

    /** Writes to the flags of a token; with the guard that the code lacks. */
    method SetProps(ghost st: State, tokenNo: nat, props: Props) returns (isPastEnd: bool)
      requires IsTokensOf(st, tokenNo)
      modifies tokens
      ensures WithProps(st, props) == st.(tokens := tokens[..], pastEnd := st.pastEnd || isPastEnd)
    {
      isPastEnd := tokenNo >= MAX_NUM_TOKENS;
      if !isPastEnd {
        tokens[tokenNo] := tokens[tokenNo].(props := props);
      }
    }

    method GetProps(ghost st: State, tokenNo: nat) returns (props: Props)
      requires IsTokensOf(st, tokenNo)
      ensures props == PropsOf(st)
    {
      props := if tokenNo < MAX_NUM_TOKENS then tokens[tokenNo].props else NO_PROPS;
    }

    method SetJumps(ghost st: State, i: nat, jumps: Detail)
      requires IsTokensOf(st, st.count)
      modifies tokens
      ensures WithDetail(st, i, jumps) == st.(tokens := tokens[..])
    {
      if i < MAX_NUM_TOKENS {
        tokens[i] := tokens[i].(detail := jumps);
      }
    }

    /** v can be worked on at character v.i, and stands for st. */
    ghost predicate IsAt(format: string, v: Locals, st: State)
      reads this, tokens
    {
      Valid() && v.i < |format| && v.i < 255 && v.AreConsistent() && st == v.Machine(tokens[..])
    }

    /** The round of the loop that started at st has been done: w are the variables after it. */
    ghost predicate IsDone(format: string, i: nat, st: State, ok: bool, w: Locals)
      requires i < |format| && st.Fits()
      reads this, tokens
    {
      && Valid()
      && (ok ==> i <= w.i < |format| && w.(i := w.i + 1).AreConsistent())
      && Step(format[i..], i, st) == (if ok then Some((w.i + 1 - i, w.Machine(tokens[..]))) else None)
    }

    method InPlainText(format: string, w: Locals, ghost st: State) returns (ok: bool, v: Locals)
      requires IsAt(format, w, st) && w.state == PLAIN_TEXT
      modifies tokens
      ensures IsDone(format, w.i, st, ok, v)
    {
      hide Stored, WithText, WithValue, WithOperand, WithProps, PropsOf, WithDetail, Invalidated;
      var chr := format[w.i];
      ok, v := false, w;
      if chr == '{' {
        if v.plainTxtLen > 0 {
          var tokenNo;
          ok, tokenNo := StoreText(st, v.tokenNo, v.plainTxtStart, v.plainTxtLen);
          if !ok {
            return;
          }
          v := v.(plainTxtLen := 0, tokenNo := tokenNo);
        }
        v := v.(number := 0, operator := None);
        var isPastEnd := SetProps(st.(tokens := tokens[..], count := v.tokenNo), v.tokenNo, NO_PROPS);
        v := v.(pastEnd := v.pastEnd || isPastEnd, state := START_TAG);
      } else {
        if chr == '}' {
          return;
        }
        if v.plainTxtLen == 0 {
          v := v.(plainTxtStart := v.i);
        }
        v := v.(plainTxtLen := v.plainTxtLen + 1);
      }
      ok := true;
    }

    method InStartTag(format: string, w: Locals, ghost st: State) returns (ok: bool, v: Locals)
      requires IsAt(format, w, st) && w.state == START_TAG
      modifies tokens
      ensures IsDone(format, w.i, st, ok, v)
    {
      hide Stored, WithText, WithValue, WithOperand, WithProps, PropsOf, WithDetail, Invalidated;
      var chr := format[w.i];
      ok, v := false, w;
      match chr {
        case '&' =>
          v := v.(tokenType := ValueToken, state := COLUMN_ID);
        case '#' =>
          v := v.(tokenType := ValueToken, state := RECORD_ID);
        case '*' =>
          v := v.(state := NUM_RECORDS);
        case '^' =>
          v := v.(state := PARENT_COLUMN_ID);
        case '?' =>
          v := v.(i := v.i + 1);
          if |format| <= v.i || format[v.i] != '&' || v.ifTokenNo != NOT_IN_IF_TAG || v.tokenNo >= MAX_NUM_TOKENS {
            return;
          }
          SetJumps(st, v.tokenNo, Jumps(0, 0));
          v := v.(ifTokenNo := v.tokenNo, state := IF_TAG_LEFT_HAND_SIDE);
        case ':' =>
          if v.ifTokenNo == NOT_IN_IF_TAG {
            return;
          }
          v := v.(state := ELSE_TAG);
        case ';' =>
          if v.ifTokenNo == NOT_IN_IF_TAG {
            return;
          }
          v := v.(state := ENDIF_TAG);
        case 'o' =>
          var props := GetProps(st, v.tokenNo);
          var isPastEnd := SetProps(st, v.tokenNo, props.(leading0 := true));
          v := v.(pastEnd := v.pastEnd || isPastEnd);
        case 'x' =>
          var props := GetProps(st, v.tokenNo);
          var isPastEnd := SetProps(st, v.tokenNo, props.(asHex := true));
          v := v.(pastEnd := v.pastEnd || isPastEnd);
        case _ =>
          return;
      }
      ok := true;
    }

    method InColumnId(format: string, w: Locals, ghost st: State) returns (ok: bool, v: Locals)
      requires IsAt(format, w, st) && w.state == COLUMN_ID
      modifies tokens
      ensures IsDone(format, w.i, st, ok, v)
    {
      hide Stored, WithText, WithValue, WithOperand, WithProps, PropsOf, WithDetail, Invalidated;
      var chr := format[w.i];
      ok, v := false, w;
      if chr == '}' {
        var tokenNo;
        ok, tokenNo := StoreOperand(st, v.tokenNo, v.tokenType, v.operator, ColumnValue, v.number);
        v := if ok then v.(tokenNo := tokenNo, state := PLAIN_TEXT) else v;
      } else if chr == '+' {
        var props := GetProps(st, v.tokenNo);
        var isPastEnd := SetProps(st, v.tokenNo, props.(offset1 := true));
        v := v.(pastEnd := v.pastEnd || isPastEnd);
        ok := true;
      } else {
        var number := WithDigit(v.number, chr);
        ok := number.Some?;
        v := if ok then v.(number := number.value) else v;
      }
    }

    method InRecordIdTag(format: string, w: Locals, ghost st: State) returns (ok: bool, v: Locals)
      requires IsAt(format, w, st) && w.state == RECORD_ID
      modifies tokens
      ensures IsDone(format, w.i, st, ok, v)
    {
      hide Stored, WithText, WithValue, WithOperand, WithProps, PropsOf, WithDetail, Invalidated;
      var chr := format[w.i];
      ok, v := false, w;
      if chr == '+' {
        var props := GetProps(st, v.tokenNo);
        var isPastEnd := SetProps(st, v.tokenNo, props.(offset1 := true));
        v := v.(pastEnd := v.pastEnd || isPastEnd);
        ok := true;
      } else if chr == '}' {
        var tokenNo;
        ok, tokenNo := StoreOperand(st, v.tokenNo, v.tokenType, v.operator, RecordIdValue, 0);
        v := if ok then v.(tokenNo := tokenNo, state := PLAIN_TEXT) else v;
      }
    }

    method InNumRecordsTag(format: string, w: Locals, ghost st: State) returns (ok: bool, v: Locals)
      requires IsAt(format, w, st) && w.state == NUM_RECORDS
      modifies tokens
      ensures IsDone(format, w.i, st, ok, v)
    {
      hide Stored, WithText, WithValue, WithOperand, WithProps, PropsOf, WithDetail, Invalidated;
      var chr := format[w.i];
      ok, v := false, w;
      if chr == '}' {
        var tokenNo;
        ok, tokenNo := StoreValue(st, v.tokenNo, ValueToken, NumRecordsValue, 0);
        v := if ok then v.(tokenNo := tokenNo, state := PLAIN_TEXT) else v;
      }
    }

    method InParentColumnId(format: string, w: Locals, ghost st: State) returns (ok: bool, v: Locals)
      requires IsAt(format, w, st) && w.state == PARENT_COLUMN_ID
      modifies tokens
      ensures IsDone(format, w.i, st, ok, v)
    {
      hide Stored, WithText, WithValue, WithOperand, WithProps, PropsOf, WithDetail, Invalidated;
      var chr := format[w.i];
      ok, v := false, w;
      if chr == '}' {
        var tokenNo;
        ok, tokenNo := StoreValue(st, v.tokenNo, ValueToken, ParentColumnValue, v.number);
        v := if ok then v.(tokenNo := tokenNo, state := PLAIN_TEXT) else v;
      } else {
        var number := WithDigit(v.number, chr);
        ok := number.Some?;
        v := if ok then v.(number := number.value) else v;
      }
    }

    method InLeftHandSide(format: string, w: Locals, ghost st: State) returns (ok: bool, v: Locals)
      requires IsAt(format, w, st) && w.state == IF_TAG_LEFT_HAND_SIDE
      modifies tokens
      ensures IsDone(format, w.i, st, ok, v)
    {
      hide Stored, WithText, WithValue, WithOperand, WithProps, PropsOf, WithDetail, Invalidated;
      var chr := format[w.i];
      ok, v := false, w;
      if IsOperatorChar(chr) {
        var tokenNo;
        ok, tokenNo := StoreValue(st, v.tokenNo, IfLhs, ColumnValue, v.number);
        var operator := OperatorAt(format[v.i..]);
        ok := ok && operator.Some?;
        if ok {
          v := v.(tokenNo := tokenNo, operator := operator);
          if OperatorLength(operator.value) == 2 {
            v := v.(i := v.i + 1);
          }
          v := v.(number := 0, tokenType := IfRhs);
          v := v.(state := if v.i + 1 < |format| && IsDigit(format[v.i + 1]) then IF_LITERAL_VALUE
                           else IF_TAG_RIGHT_HAND_SIDE);
        }
      } else if chr == '}' {
        var tokenNo;
        ok, tokenNo := StoreValue(st, v.tokenNo, IfLhs, ColumnValue, v.number);
        v := if ok then v.(tokenNo := tokenNo, state := PLAIN_TEXT) else v;
      } else {
        var number := WithDigit(v.number, chr);
        ok := number.Some?;
        v := if ok then v.(number := number.value) else v;
      }
    }

    method InLiteralValue(format: string, w: Locals, ghost st: State) returns (ok: bool, v: Locals)
      requires IsAt(format, w, st) && w.state == IF_LITERAL_VALUE
      modifies tokens
      ensures IsDone(format, w.i, st, ok, v)
    {
      hide Stored, WithText, WithValue, WithOperand, WithProps, PropsOf, WithDetail, Invalidated;
      var chr := format[w.i];
      ok, v := false, w;
      if chr == '}' {
        var tokenNo;
        ok, tokenNo := StoreOperand(st, v.tokenNo, v.tokenType, v.operator, LiteralValue, v.number);
        v := if ok then v.(tokenNo := tokenNo, state := PLAIN_TEXT) else v;
      } else {
        var number := WithDigit(v.number, chr);
        ok := number.Some?;
        v := if ok then v.(number := number.value) else v;
      }
    }

    method InRightHandSideTag(format: string, w: Locals, ghost st: State) returns (ok: bool, v: Locals)
      requires IsAt(format, w, st) && w.state == IF_TAG_RIGHT_HAND_SIDE
      modifies tokens
      ensures IsDone(format, w.i, st, ok, v)
    {
      hide Stored, WithText, WithValue, WithOperand, WithProps, PropsOf, WithDetail, Invalidated;
      var chr := format[w.i];
      ok, v := false, w;
      if chr == '#' {
        v := v.(state := RECORD_ID);
      } else if chr == '&' {
        v := v.(state := COLUMN_ID);
      } else {
        return;
      }
      ok := true;
      assert w.operator == Some(w.operator.value);
    }

    method InElseTag(format: string, w: Locals, ghost st: State) returns (ok: bool, v: Locals)
      requires IsAt(format, w, st) && w.state == ELSE_TAG
      modifies tokens
      ensures IsDone(format, w.i, st, ok, v)
    {
      hide Stored, WithText, WithValue, WithOperand, WithProps, PropsOf, WithDetail, Invalidated;
      var chr := format[w.i];
      ok, v := false, w;
      if chr != '}' || v.ifTokenNo == NOT_IN_IF_TAG {
        return;
      }
      var jumps := JumpsOf(tokens[v.ifTokenNo]);
      if jumps.elseIndex != 0 {
        return;
      }
      SetJumps(st, v.ifTokenNo, jumps.(elseIndex := v.tokenNo));
      v := v.(state := PLAIN_TEXT);
      ok := true;
    }

    method InEndTag(format: string, w: Locals, ghost st: State) returns (ok: bool, v: Locals)
      requires IsAt(format, w, st) && w.state == ENDIF_TAG
      modifies tokens
      ensures IsDone(format, w.i, st, ok, v)
    {
      hide Stored, WithText, WithValue, WithOperand, WithProps, PropsOf, WithDetail, Invalidated;
      var chr := format[w.i];
      ok, v := false, w;
      if chr != '}' || v.ifTokenNo == NOT_IN_IF_TAG {
        return;
      }
      var jumps := JumpsOf(tokens[v.ifTokenNo]);
      SetJumps(st, v.ifTokenNo, jumps.(endIndex := v.tokenNo));
      v := v.(ifTokenNo := NOT_IN_IF_TAG, state := PLAIN_TEXT);
      ok := true;
    }

    /** The body of the loop. */
    method InState(format: string, w: Locals, ghost st: State) returns (ok: bool, v: Locals)
      requires IsAt(format, w, st)
      modifies tokens
      ensures IsDone(format, w.i, st, ok, v)
    {
      hide Step;
      match w.state {
        case PLAIN_TEXT => ok, v := InPlainText(format, w, st);
        case START_TAG => ok, v := InStartTag(format, w, st);
        case COLUMN_ID => ok, v := InColumnId(format, w, st);
        case RECORD_ID => ok, v := InRecordIdTag(format, w, st);
        case NUM_RECORDS => ok, v := InNumRecordsTag(format, w, st);
        case PARENT_COLUMN_ID => ok, v := InParentColumnId(format, w, st);
        case IF_TAG_LEFT_HAND_SIDE => ok, v := InLeftHandSide(format, w, st);
        case IF_LITERAL_VALUE => ok, v := InLiteralValue(format, w, st);
        case IF_TAG_RIGHT_HAND_SIDE => ok, v := InRightHandSideTag(format, w, st);
        case ELSE_TAG => ok, v := InElseTag(format, w, st);
        case ENDIF_TAG => ok, v := InEndTag(format, w, st);
      }
    }

    /** After the loop: the last text is stored, and three asserts. */
    method Finish(format: string, v: Locals) returns (accepted: bool)
      requires Valid() && v.i == |format| && v.AreConsistent()
      modifies tokens
      ensures accepted <==> Finished(old(v.Machine(tokens[..])), |format|).Some?
      ensures accepted ==>
                var parsed := Finished(old(v.Machine(tokens[..])), |format|).value;
                parsed.tokens == tokens[..] && parsed.pastEnd == v.pastEnd
    {
      hide Stored, WithText;
      if |format| > 255 {
        return false;
      }
      var tokenNo := v.tokenNo;
      if v.plainTxtLen > 0 {
        var ok;
        ok, tokenNo := StoreText(v.Machine(tokens[..]), tokenNo, v.plainTxtStart, v.plainTxtLen);
        if !ok {
          return false;
        }
      }
      accepted := tokenNo > 0 && v.ifTokenNo == NOT_IN_IF_TAG && v.state == PLAIN_TEXT;
    }

    /** accepted is false where an assert of the code fails; pastEnd tells whether the code wrote
        past its array. */
    method ParseFormat(format: string) returns (accepted: bool, pastEnd: bool)
      requires Valid()
      modifies tokens
      ensures accepted <==> Parse(format, old(tokens[..])).Some?
      ensures accepted ==>
                var parsed := Parse(format, old(tokens[..])).value;
                parsed.tokens == tokens[..] && parsed.pastEnd == pastEnd
    {
      hide Run, Step, Stored, WithText, WithValue, WithOperand, WithProps, PropsOf, WithDetail, Invalidated;
      var v := Locals(0, PLAIN_TEXT, 0, None, 0, NOT_IN_IF_TAG, Invalid, 0, 0, false);
      var ok: bool;
      accepted, pastEnd := false, false;
      ghost var run := Run(format, 0, Initial(tokens[..]));
      InvalidateFirst();
      assert format[0..] == format;
      while v.i < |format|
        invariant Valid() && v.i <= |format| && v.AreConsistent()
        invariant run == Run(format[v.i..], v.i, v.Machine(tokens[..]))
        decreases |format| - v.i
      {
        ghost var at, st := v.i, v.Machine(tokens[..]);
        RunStep(format[at..], at, st);
        if v.i >= 255 {
          return;
        }
        ok, v := InState(format, v, st);
        if !ok {
          return;
        }
        v := v.(i := v.i + 1);
        assert format[v.i..] == format[at..][v.i - at..];
      }
      RunStep(format[v.i..], v.i, v.Machine(tokens[..]));
      accepted := Finish(format, v);
      pastEnd := v.pastEnd;
    }
  }
}
