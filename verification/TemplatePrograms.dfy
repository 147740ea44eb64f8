/** What holds of the tokens of every accepted format string, whether or not it is the canonical
    spelling of a template. */
module TemplatePrograms {
  import opened MachineInts
  import opened Wrappers
  import opened TemplateSyntax
  import opened TemplateParser
  import opened TemplateCompiler
  import opened TemplateCorrectness

  /** Jumps go forward, within the program; conditionals do not nest or overlap; a right-hand side
      directly follows its left-hand side. */
  predicate IsProgram(p: seq<Instruction>) {
    && (forall k :: 0 <= k < |p| ==> p[k] != NoInstruction)
    && (forall k :: 0 <= k < |p| && p[k].Test? ==>
          && k < p[k].endIndex <= |p|
          && (p[k].elseIndex == 0 || k < p[k].elseIndex <= p[k].endIndex))
    && (forall j, k :: 0 <= j < k < |p| && p[j].Test? && p[k].Test? ==> p[j].endIndex <= k)
    && (forall k :: 0 <= k < |p| && p[k].Against? ==> 0 < k && p[k - 1].Test?)
  }

  /** A program whose last conditional may still be open. */
  predicate IsPartial(p: seq<Instruction>, openIf: Option<uint8>) {
    && (forall k :: 0 <= k < |p| ==> p[k] != NoInstruction)
    && (openIf.Some? ==> openIf.value <= |p|)
    && (forall k :: 0 <= k < |p| && p[k].Test? && openIf != Some(k) ==>
          && k < p[k].endIndex <= (if openIf.Some? then openIf.value else |p|)
          && (p[k].elseIndex == 0 || k < p[k].elseIndex <= p[k].endIndex))
    && (openIf.Some? && openIf.value < |p| ==>
          var k := openIf.value;
          && p[k].Test?
          && (p[k].elseIndex == 0 || k < p[k].elseIndex <= |p|)
          && (forall j :: k < j < |p| ==> !p[j].Test?))
    && (forall j, k :: 0 <= j < k < |p| && p[j].Test? && p[k].Test? ==> p[j].endIndex <= k)
    && (forall k :: 0 <= k < |p| && p[k].Against? ==> 0 < k && p[k - 1].Test?)
  }

  /** The mode is inside a comparison, behind its operator. */
  predicate IsBehindOperator(mode: Mode) {
    match mode
    case Number(ForColumn(rhs), _) => rhs.Some?
    case Number(ForLiteral(_), _) => true
    case RecordTag(rhs) => rhs.Some?
    case RightHandSide(_) => true
    case _ => false
  }

  predicate IsSound(st: State) {
    && st.Fits()
    && var p := Views(st.tokens, st.count);
    && IsPartial(p, st.openIf)
    && (st.count < MAX_NUM_TOKENS ==> st.tokens[st.count].tokenType == Invalid)
    && (IsBehindOperator(st.mode) ==> p != [] && p[|p| - 1].Test?)
    && (st.openIf == Some(st.count) <==> st.mode.Number? && st.mode.purpose.ForIfColumn?)
    && (st.openIf == Some(st.count) ==> st.count < MAX_NUM_TOKENS && st.tokens[st.count].detail == Jumps(0, 0))
  }

  // ---- the changes to a partial program ----

  lemma AppendedIsPartial(p: seq<Instruction>, openIf: Option<uint8>, x: Instruction)
    requires IsPartial(p, openIf) && openIf != Some(|p|) && x != NoInstruction && !x.Test?
    requires x.Against? ==> p != [] && p[|p| - 1].Test?
    ensures IsPartial(p + [x], openIf)
  {
  }

  lemma OpenedIsPartial(p: seq<Instruction>)
    requires IsPartial(p, None) && |p| < MAX_NUM_TOKENS
    ensures IsPartial(p, Some(|p|))
  {
  }

  lemma TestedIsPartial(p: seq<Instruction>, x: Instruction)
    requires |p| < MAX_NUM_TOKENS && IsPartial(p, Some(|p|)) && x.Test? && x.elseIndex == 0
    ensures IsPartial(p + [x], Some(|p|))
  {
  }

  lemma ElsedIsPartial(p: seq<Instruction>, k: uint8)
    requires IsPartial(p, Some(k)) && k < |p|
    ensures IsPartial(p[k := Jumped(p[k], |p|, p[k].endIndex)], Some(k))
  {
  }

  lemma EndedIsPartial(p: seq<Instruction>, k: uint8)
    requires IsPartial(p, Some(k)) && k < |p|
    ensures IsPartial(p[k := Jumped(p[k], p[k].elseIndex, |p|)], None)
  {
  }

  // ---- every round keeps the tokens sound ----

  lemma StoredIsSound(st: State, token: Token, mode: Mode)
    requires IsSound(st) && st.count < MAX_NUM_TOKENS && token.tokenType != Invalid && View(token) != NoInstruction
    requires View(token).Test? ==> st.openIf == Some(st.count) && View(token).elseIndex == 0
    requires View(token).Against? ==> IsBehindOperator(st.mode)
    requires !View(token).Test? ==> st.openIf != Some(st.count)
    requires !(mode.Number? && mode.purpose.ForIfColumn?)
    requires IsBehindOperator(mode) ==> View(token).Test?
    ensures IsSound(Stored(st, token).value.(mode := mode))
  {
    assert st.openIf.Some? ==> st.openIf.value <= st.count;
    hide IsPartial, Stored;
    ViewsOfStored(st, token);
    var p := Views(st.tokens, st.count);
    if View(token).Test? {
      TestedIsPartial(p, View(token));
    } else {
      AppendedIsPartial(p, st.openIf, View(token));
    }
    NextIsInvalid(st, token);
  }

  lemma NextIsInvalid(st: State, token: Token)
    requires st.Fits() && st.count < MAX_NUM_TOKENS
    ensures var s := Stored(st, token).value;
            s.count < MAX_NUM_TOKENS ==> s.tokens[s.count].tokenType == Invalid
    ensures var s := Stored(st, token).value; s.count == st.count + 1
  {
  }

  lemma PropsAreSound(st: State, props: Props)
    requires IsSound(st)
    ensures IsSound(WithProps(st, props))
  {
    hide IsPartial, WithProps;
    ViewsOfProps(st, props);
  }

  lemma PlainStepIsSound(c: char, at: nat, st: State)
    requires IsSound(st) && st.mode.Plain? && st.mode.length <= at < 255
    ensures var next := PlainStep(c, at, st); next.Some? ==> IsSound(next.value)
  {
    hide IsPartial, Stored, WithProps, Views;
    var next := PlainStep(c, at, st);
    if c == '{' && next.Some? {
      var flushed := Flush(st, at).value;
      if st.mode.length > 0 {
        var token := st.tokens[st.count].(tokenType := TextToken, detail := Span(at - st.mode.length, st.mode.length));
        StoredIsSound(st, token, st.mode);
        ViewsOfStored(st, token);
        assert flushed.(mode := st.mode) == flushed;
      }
      PropsAreSound(flushed, NO_PROPS);
    }
  }

  lemma StartTagStepIsSound(s: string, st: State)
    requires IsSound(st) && st.mode.StartTag? && s != ""
    ensures var next := StartTagStep(s, st); next.Some? ==> IsSound(next.value.1)
  {
    hide IsPartial, WithProps;
    PropsAreSound(st, PropsOf(st).(leading0 := true));
    PropsAreSound(st, PropsOf(st).(asHex := true));
    if s[0] == '?' && st.count < MAX_NUM_TOKENS && st.openIf.None? {
      ViewsOfDetail(st, st.count, Jumps(0, 0));
      OpenedIsPartial(Views(st.tokens, st.count));
    }
  }

  /** A value that is not the left-hand side of a conditional. */
  lemma ValueIsSound(st: State, valueType: ValueType, number: uint8)
    requires IsSound(st) && !(st.mode.Number? && st.mode.purpose.ForIfColumn?)
    ensures var next := Close(WithValue(st, ValueToken, valueType, number)); next.Some? ==> IsSound(next.value)
  {
    hide IsPartial, Stored, Views;
    if st.count < MAX_NUM_TOKENS {
      var token := st.tokens[st.count].(tokenType := ValueToken, valueType := valueType, number := number);
      StoredIsSound(st, token, Plain(0));
    }
  }

  lemma OperandIsSound(st: State, rhs: Option<Operator>, valueType: ValueType, number: uint8)
    requires IsSound(st) && !(st.mode.Number? && st.mode.purpose.ForIfColumn?)
    requires rhs.Some? ==> IsBehindOperator(st.mode)
    ensures var next := Close(WithOperand(st, rhs, valueType, number)); next.Some? ==> IsSound(next.value)
  {
    if rhs.None? {
      hide IsSound;
      ValueIsSound(st, valueType, number);
    } else if st.count < MAX_NUM_TOKENS {
      hide IsPartial, Stored;
      var detail := IfOperator(rhs.value);
      ViewsOfDetail(st, st.count, detail);
      var d := WithDetail(st, st.count, detail);
      var token := d.tokens[st.count].(tokenType := IfRhs, valueType := valueType, number := number);
      StoredIsSound(d, token, Plain(0));
    }
  }

  lemma LeftHandSideIsSound(st: State, number: uint8, mode: Mode)
    requires IsSound(st) && st.mode.Number? && st.mode.purpose.ForIfColumn?
    requires !(mode.Number? && mode.purpose.ForIfColumn?)
    ensures var next := WithValue(st, IfLhs, ColumnValue, number); next.Some? ==> IsSound(next.value.(mode := mode))
  {
    hide IsPartial, Stored, Views;
    if st.count < MAX_NUM_TOKENS {
      var token := st.tokens[st.count].(tokenType := IfLhs, valueType := ColumnValue, number := number);
      StoredIsSound(st, token, mode);
    }
  }

  lemma NumberStepIsSound(s: string, st: State)
    requires IsSound(st) && st.mode.Number? && s != ""
    ensures var next := NumberStep(s, st); next.Some? ==> IsSound(next.value.1)
  {
    hide IsPartial, WithProps, WithValue, WithOperand, Views;
    var Number(purpose, number) := st.mode;
    match purpose
    case ForColumn(rhs) =>
      OperandIsSound(st, rhs, ColumnValue, number);
      PropsAreSound(st, PropsOf(st).(offset1 := true));
    case ForParent =>
      ValueIsSound(st, ParentColumnValue, number);
    case ForIfColumn =>
      LeftHandSideIsSound(st, number, Plain(0));
      if s[0] != '}' && IsOperatorChar(s[0]) && OperatorAt(s).Some? {
        var op := OperatorAt(s).value;
        LeftHandSideIsSound(st, number, Number(ForLiteral(op), 0));
        LeftHandSideIsSound(st, number, RightHandSide(op));
      }
    case ForLiteral(op) =>
      OperandIsSound(st, Some(op), LiteralValue, number);
  }

  lemma JumpStepIsSound(c: char, st: State)
    requires IsSound(st) && (st.mode.ElseTag? || st.mode.EndTag?)
    ensures st.mode.ElseTag? ==> var next := ElseTagStep(c, st); next.Some? ==> IsSound(next.value)
    ensures st.mode.EndTag? ==> var next := EndTagStep(c, st); next.Some? ==> IsSound(next.value)
  {
    if c == '}' && st.openIf.Some? {
      var k, p := st.openIf.value, Views(st.tokens, st.count);
      assert k < st.count;
      assert p[k] == View(st.tokens[k]);
      hide IsPartial;
      var jumps := JumpsOf(st.tokens[k]);
      ViewsOfDetail(st, k, jumps.(elseIndex := st.count));
      ViewsOfDetail(st, k, jumps.(endIndex := st.count));
      ElsedIsPartial(p, k);
      EndedIsPartial(p, k);
    }
  }

  /** The text being read lies before position at. */
  predicate IsIn(st: State, at: nat) {
    IsSound(st) && (st.mode.Plain? ==> st.mode.length <= at)
  }

  lemma SoundFits(st: State)
    requires IsSound(st)
    ensures st.Fits()
  {
  }

  lemma StepIsSound(s: string, at: nat, st: State)
    requires IsIn(st, at) && s != ""
    ensures var next := Step(s, at, st); next.Some? ==> IsIn(next.value.1, at + next.value.0)
  {
    hide IsPartial, WithValue, WithOperand, WithProps, Views, Flush;
    if at < 255 {
      match st.mode
      case Plain(_) => PlainStepIsSound(s[0], at, st);
      case StartTag => StartTagStepIsSound(s, st);
      case Number(_, _) => NumberStepIsSound(s, st);
      case RecordTag(rhs) =>
        OperandIsSound(st, rhs, RecordIdValue, 0);
        PropsAreSound(st, PropsOf(st).(offset1 := true));
      case CountTag => ValueIsSound(st, NumRecordsValue, 0);
      case RightHandSide(_) =>
      case _ => JumpStepIsSound(s[0], st);
    }
  }

  /** The tokens that a caller sees: those before the first invalid one. */
  function TokenCount(tokens: seq<Token>, k: nat): (n: nat)
    requires k <= |tokens|
    ensures k <= n <= |tokens|
    decreases |tokens| - k
  {
    if k == |tokens| || tokens[k].tokenType == Invalid then k else TokenCount(tokens, k + 1)
  }

  lemma {:induction false} CountOfTokens(tokens: seq<Token>, k: nat, n: nat)
    requires k <= n <= |tokens|
    requires forall i :: k <= i < n ==> tokens[i].tokenType != Invalid
    requires n < |tokens| ==> tokens[n].tokenType == Invalid
    ensures TokenCount(tokens, k) == n
    decreases n - k
  {
    if k < n {
      CountOfTokens(tokens, k + 1, n);
    }
  }

  lemma FinishedIsSound(st: State, length: nat)
    requires IsSound(st) && (st.mode.Plain? ==> st.mode.length <= length)
    ensures var f := Finished(st, length);
            f.Some? ==> IsSound(f.value) && f.value.openIf.None?
  {
    hide IsPartial, Stored, Views;
    var f := Finished(st, length);
    if f.Some? && st.mode.length > 0 {
      var token := st.tokens[st.count].(tokenType := TextToken, detail := Span(length - st.mode.length, st.mode.length));
      StoredIsSound(st, token, st.mode);
      ViewsOfStored(st, token);
      assert f.value.(mode := st.mode) == f.value;
    }
  }

  // ---- texts ----

  /** The texts that a program writes, in order. */
  function Texts(p: seq<Instruction>): seq<Instruction> {
    if p == [] then []
    else Texts(p[..|p| - 1]) + (if p[|p| - 1].WriteText? then [p[|p| - 1]] else [])
  }

  /** The maximal runs of characters outside braces; length characters of one have been read before
      position at. */
  function TextRuns(s: string, at: nat, inside: bool, length: nat): seq<Instruction>
    requires length <= at
    decreases |s|
  {
    var run := if length > 0 then [WriteText(at - length, length)] else [];
    if s == "" then run
    else if inside then TextRuns(s[1..], at + 1, s[0] != '}', 0)
    else if s[0] == '{' then run + TextRuns(s[1..], at + 1, true, 0)
    else TextRuns(s[1..], at + 1, false, length + 1)
  }

  lemma Appended(p: seq<Instruction>, x: Instruction)
    ensures Texts(p + [x]) == Texts(p) + (if x.WriteText? then [x] else [])
  {
    assert (p + [x])[..|p|] == p;
  }

  lemma {:induction false} Patched(p: seq<Instruction>, k: nat, x: Instruction)
    requires k < |p| && p[k].Test? && x.Test?
    ensures Texts(p[k := x]) == Texts(p)
  {
    if k == |p| - 1 {
      assert p[k := x][..k] == p[..k];
    } else {
      Patched(p[..|p| - 1], k, x);
      assert p[k := x][..|p| - 1] == p[..|p| - 1][k := x];
    }
  }

  predicate ReadsIfColumn(mode: Mode) {
    mode.Number? && mode.purpose.ForIfColumn?
  }

  /** What one round does to the views of the tokens, apart from the texts that end at a brace and the
      jumps that are set at else and end tags: a test is stored behind the column of an if tag. */
  predicate AddsNoText(st: State, next: State)
    requires st.Fits() && next.Fits()
  {
    var (p, q) := (Views(st.tokens, st.count), Views(next.tokens, next.count));
    || q == p
    || (|q| == |p| + 1 && q[..|p|] == p && !q[|p|].WriteText? && (q[|p|].Test? <==> ReadsIfColumn(st.mode))
        && (q[|p|].Test? ==> q[|p|].elseIndex == q[|p|].endIndex == 0))
  }

  lemma StoredAddsNoText(st: State, token: Token, mode: Mode)
    requires st.Fits() && st.count < MAX_NUM_TOKENS && token.tokenType != Invalid && !View(token).WriteText?
    requires View(token).Test? <==> ReadsIfColumn(st.mode)
    requires View(token).Test? ==> View(token).elseIndex == View(token).endIndex == 0
    ensures AddsNoText(st, Stored(st, token).value.(mode := mode))
  {
    hide Stored;
    ViewsOfStored(st, token);
  }

  lemma ValueAddsNoText(st: State, tokenType: TokenType, valueType: ValueType, number: uint8)
    requires IsSound(st)
    requires tokenType == if ReadsIfColumn(st.mode) then IfLhs else ValueToken
    ensures var next := WithValue(st, tokenType, valueType, number);
            next.Some? ==> AddsNoText(st, next.value) && AddsNoText(st, next.value.(mode := Plain(0)))
  {
    hide Stored;
    if st.count < MAX_NUM_TOKENS {
      var token := st.tokens[st.count].(tokenType := tokenType, valueType := valueType, number := number);
      StoredAddsNoText(st, token, st.mode);
      StoredAddsNoText(st, token, Plain(0));
      assert Stored(st, token).value.(mode := st.mode) == Stored(st, token).value by {
        ViewsOfStored(st, token);
      }
    }
  }

  lemma OperandAddsNoText(st: State, rhs: Option<Operator>, valueType: ValueType, number: uint8)
    requires IsSound(st) && !ReadsIfColumn(st.mode)
    ensures var next := Close(WithOperand(st, rhs, valueType, number)); next.Some? ==> AddsNoText(st, next.value)
  {
    hide Stored;
    ValueAddsNoText(st, ValueToken, valueType, number);
    if rhs.Some? && st.count < MAX_NUM_TOKENS {
      var detail := IfOperator(rhs.value);
      ViewsOfDetail(st, st.count, detail);
      var d := WithDetail(st, st.count, detail);
      var token := d.tokens[st.count].(tokenType := IfRhs, valueType := valueType, number := number);
      StoredAddsNoText(d, token, Plain(0));
    }
  }

  lemma PropsAddNoText(st: State, props: Props)
    requires st.Fits()
    ensures AddsNoText(st, WithProps(st, props))
  {
    ViewsOfProps(st, props);
  }

  /** Inside a tag, up to its closing brace, nothing is added but the tag's own tokens. */
  lemma TagStepAddsNoText(s: string, at: nat, st: State)
    requires IsSound(st) && s != "" && !st.mode.Plain? && !st.mode.ElseTag? && !st.mode.EndTag?
    ensures var next := Step(s, at, st); next.Some? ==> AddsNoText(st, next.value.1)
  {
    hide IsPartial, WithValue, WithOperand, WithProps, Views;
    PropsAddNoText(st, PropsOf(st).(offset1 := true));
    match st.mode
    case StartTag =>
      PropsAddNoText(st, PropsOf(st).(leading0 := true));
      PropsAddNoText(st, PropsOf(st).(asHex := true));
      if st.count < MAX_NUM_TOKENS {
        ViewsOfDetail(st, st.count, Jumps(0, 0));
      }
    case Number(ForColumn(rhs), number) => OperandAddsNoText(st, rhs, ColumnValue, number);
    case Number(ForParent, number) => ValueAddsNoText(st, ValueToken, ParentColumnValue, number);
    case Number(ForIfColumn, number) => ValueAddsNoText(st, IfLhs, ColumnValue, number);
    case Number(ForLiteral(op), number) => OperandAddsNoText(st, Some(op), LiteralValue, number);
    case RecordTag(rhs) => OperandAddsNoText(st, rhs, RecordIdValue, 0);
    case CountTag => ValueAddsNoText(st, ValueToken, NumRecordsValue, 0);
    case RightHandSide(_) =>
  }

  lemma TagStepReads(s: string, at: nat, st: State)
    requires st.Fits() && s != "" && !st.mode.Plain?
    ensures var r := Step(s, at, st);
            r.Some? ==>
              var (n, mode) := (r.value.0, r.value.1.mode);
              && n <= 2 && (mode.Plain? <==> s[0] == '}') && (mode.Plain? ==> n == 1 && mode.length == 0)
              && (n == 2 ==> s[1] != '}')
              && (st.mode.ElseTag? || st.mode.EndTag? ==> mode.Plain?)
  {
    hide WithValue, WithOperand, WithProps, WithDetail;
  }

  /** The texts in the tokens and those still to be read. */
  function Outline(st: State, s: string, at: nat): seq<Instruction>
    requires st.Fits() && (st.mode.Plain? ==> st.mode.length <= at)
  {
    Texts(Views(st.tokens, st.count)) + TextRuns(s, at, !st.mode.Plain?, if st.mode.Plain? then st.mode.length else 0)
  }

  lemma ReadInside(s: string, at: nat, n: nat, length: nat)
    requires 1 <= n <= 2 && n <= |s| && length <= at && (n == 2 ==> s[0] != '}' && s[1] != '}')
    ensures TextRuns(s, at, true, 0) == TextRuns(s[n..], at + n, s[0] != '}', 0)
  {
    assert s[1..][n - 1..] == s[n..];
  }

  lemma TagKeepsOutline(s: string, at: nat, st: State)
    requires IsSound(st) && s != "" && !st.mode.Plain? && !st.mode.ElseTag? && !st.mode.EndTag?
    ensures var r := Step(s, at, st);
            r.Some? ==> Outline(r.value.1, s[r.value.0..], at + r.value.0) == Outline(st, s, at)
  {
    hide Step, IsPartial, Texts, TextRuns, Views;
    var r := Step(s, at, st);
    if r.Some? {
      TagStepAddsNoText(s, at, st);
      TagStepReads(s, at, st);
      var (n, next) := r.value;
      ReadInside(s, at, n, 0);
      var p, q := Views(st.tokens, st.count), Views(next.tokens, next.count);
      if q != p {
        Appended(p, q[|p|]);
        assert q == p + [q[|p|]];
        assert Texts(p) + [] == Texts(p);
      }
    }
  }

  /** The tokens of a partial program that are patched at an else or an end tag. */
  lemma OpenIfIsTest(st: State)
    requires IsSound(st) && (st.mode.ElseTag? || st.mode.EndTag?) && st.openIf.Some?
    ensures var k := st.openIf.value;
            k < st.count && Views(st.tokens, st.count)[k] == View(st.tokens[k]) && st.tokens[k].tokenType == IfLhs
  {
  }

  lemma JumpKeepsOutline(s: string, at: nat, st: State)
    requires IsSound(st) && s != "" && (st.mode.ElseTag? || st.mode.EndTag?)
    ensures var r := Step(s, at, st);
            r.Some? ==> Outline(r.value.1, s[r.value.0..], at + r.value.0) == Outline(st, s, at)
  {
    var r := Step(s, at, st);
    if r.Some? {
      OpenIfIsTest(st);
      TagStepReads(s, at, st);
      hide IsSound, Texts, TextRuns, Views, WithDetail;
      var k, p := st.openIf.value, Views(st.tokens, st.count);
      ReadInside(s, at, 1, 0);
      var jumps := JumpsOf(st.tokens[k]);
      var patch := if st.mode.ElseTag? then jumps.(elseIndex := st.count) else jumps.(endIndex := st.count);
      ViewsOfDetail(st, k, patch);
      Patched(p, k, View(st.tokens[k].(detail := patch)));
    }
  }

  lemma PlainKeepsOutline(s: string, at: nat, st: State)
    requires IsSound(st) && s != "" && st.mode.Plain? && st.mode.length <= at
    ensures var r := Step(s, at, st);
            r.Some? ==> Outline(r.value.1, s[r.value.0..], at + r.value.0) == Outline(st, s, at)
  {
    hide IsPartial, Texts, Views, Stored, WithProps;
    var r := Step(s, at, st);
    if r.Some? && s[0] == '{' {
      var flushed := Flush(st, at).value;
      ViewsOfProps(flushed, NO_PROPS);
      var p := Views(st.tokens, st.count);
      if st.mode.length > 0 {
        var token := st.tokens[st.count].(tokenType := TextToken, detail := Span(at - st.mode.length, st.mode.length));
        ViewsOfStored(st, token);
        Appended(p, View(token));
      }
      TextEnds(Texts(p), if st.mode.length > 0 then [WriteText(at - st.mode.length, st.mode.length)] else [],
               TextRuns(s[1..], at + 1, true, 0));
    }
  }

  lemma TextEnds(a: seq<Instruction>, run: seq<Instruction>, b: seq<Instruction>)
    ensures a + (run + b) == (a + run) + b
    ensures run == [] ==> a + run == a
  {
  }

  lemma StepKeepsOutline(s: string, at: nat, st: State)
    requires IsIn(st, at) && s != ""
    ensures var r := Step(s, at, st);
            r.Some? ==>
              && IsIn(r.value.1, at + r.value.0)
              && Outline(r.value.1, s[r.value.0..], at + r.value.0) == Outline(st, s, at)
  {
    StepIsSound(s, at, st);
    hide Step, IsSound, Outline;
    match st.mode
    case Plain(_) => PlainKeepsOutline(s, at, st);
    case ElseTag => JumpKeepsOutline(s, at, st);
    case EndTag => JumpKeepsOutline(s, at, st);
    case _ => TagKeepsOutline(s, at, st);
  }

  lemma {:induction false} RunKeepsOutline(s: string, at: nat, st: State)
    requires IsIn(st, at)
    ensures var last := Run(s, at, st);
            last.Some? ==> IsIn(last.value, at + |s|) && Outline(last.value, "", at + |s|) == Outline(st, s, at)
    decreases |s|
  {
    hide Run, Step, IsSound, Outline;
    assert st.Fits() by {
      SoundFits(st);
    }
    RunStep(s, at, st);
    if s != "" && Step(s, at, st).Some? {
      var (n, next) := Step(s, at, st).value;
      StepKeepsOutline(s, at, st);
      RunKeepsOutline(s[n..], at + n, next);
    }
  }

  lemma FinishedOutline(st: State, length: nat)
    requires IsSound(st) && (st.mode.Plain? ==> st.mode.length <= length)
    ensures var f := Finished(st, length);
            f.Some? ==>
              var p := Views(f.value.tokens, f.value.count);
              Texts(p) == Outline(st, "", length)
  {
    hide IsPartial, Texts, Views, Stored;
    var p := Views(st.tokens, st.count);
    assert Texts(p) + [] == Texts(p);
    if Finished(st, length).Some? && st.mode.length > 0 {
      var token := st.tokens[st.count].(tokenType := TextToken, detail := Span(length - st.mode.length, st.mode.length));
      ViewsOfStored(st, token);
      Appended(p, View(token));
    }
  }

  lemma InitialOutline(format: string, tokens: seq<Token>)
    requires |tokens| == MAX_NUM_TOKENS
    ensures IsSound(Initial(tokens))
    ensures Outline(Initial(tokens), format, 0) == TextRuns(format, 0, false, 0)
  {
    hide TextRuns;
    assert Views(Initial(tokens).tokens, 0) == [];
    assert Texts([]) + TextRuns(format, 0, false, 0) == TextRuns(format, 0, false, 0);
  }

  /** The texts that an accepted format string writes are exactly its maximal runs of characters
      outside tags, in order. */
  lemma AcceptedTexts(format: string, tokens: seq<Token>)
    requires |tokens| == MAX_NUM_TOKENS
    ensures var parsed := Parse(format, tokens);
            parsed.Some? ==>
              var p := Views(parsed.value.tokens, parsed.value.count);
              Texts(p) == TextRuns(format, 0, false, 0)
  {
    hide Run, Finished, Outline, IsSound, TextRuns, Texts, Views;
    var st := Initial(tokens);
    InitialOutline(format, tokens);
    RunKeepsOutline(format, 0, st);
    if Parse(format, tokens).Some? {
      FinishedOutline(Run(format, 0, st).value, |format|);
    }
  }

  /** Every accepted format string yields a program: forward jumps inside it, conditionals apart from
      each other, right-hand sides behind left-hand sides; and the first invalid token ends it. */
  lemma AcceptedIsProgram(format: string, tokens: seq<Token>)
    requires |tokens| == MAX_NUM_TOKENS
    ensures var parsed := Parse(format, tokens);
            parsed.Some? ==>
              && 0 < parsed.value.count == TokenCount(parsed.value.tokens, 0)
              && IsProgram(Views(parsed.value.tokens, parsed.value.count))
  {
    var st := Initial(tokens);
    assert IsSound(st);
    RunKeepsOutline(format, 0, st);
    var last, parsed := Run(format, 0, st), Parse(format, tokens);
    if parsed.Some? {
      FinishedIsSound(last.value, |format|);
      var f := parsed.value;
      assert forall k :: 0 <= k < f.count ==> Views(f.tokens, f.count)[k] == View(f.tokens[k]);
      CountOfTokens(f.tokens, 0, f.count);
    }
  }
}
