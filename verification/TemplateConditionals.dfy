/** The conditionals of every accepted format string, one by one: a reader that looks at braces, tag
    characters and operators only tells where each begins, whether it has an else, and how many tokens
    come before its else and its end. */
module TemplateConditionals {
  import opened TemplateSyntax
  import opened TemplateParser
  import opened TemplateCompiler
  import opened TemplateCorrectness
  import opened TemplatePrograms

  /** A conditional, with the number of tokens completed before its else tag and its end tag. */
  datatype Conditional = Conditional(hasElse: bool, elseIndex: nat, endIndex: nat)

  // ---- reading a format string ----

  datatype TagKind = AtValue | AtIf(compares: bool) | AtElse | AtEnd

  /** inside: between braces. count: the tokens completed so far. */
  datatype Reading = Reading(inside: bool, kind: TagKind, hasText: bool, count: nat, found: seq<Conditional>)

  function KindAfter(c: char, kind: TagKind): TagKind {
    if c == '?' then AtIf(false)
    else if c == ':' then AtElse
    else if c == ';' then AtEnd
    else if IsOperatorChar(c) && kind.AtIf? then AtIf(true)
    else kind
  }

  /** The conditional that has been read last has its else, or its end, behind n tokens. */
  function WithElse(found: seq<Conditional>, n: nat): seq<Conditional> {
    var last := |found| - 1;
    if found == [] then [] else found[last := found[last].(hasElse := true, elseIndex := n)]
  }

  function WithEnd(found: seq<Conditional>, n: nat): seq<Conditional> {
    var last := |found| - 1;
    if found == [] then [] else found[last := found[last].(endIndex := n)]
  }

  /** The end of a tag: a value is one token, a test one or two, and the other tags are none. */
  function TagRead(r: Reading): Reading {
    var done := r.(inside := false, hasText := false);
    match r.kind
    case AtValue => done.(count := r.count + 1)
    case AtIf(compares) =>
      done.(count := r.count + (if compares then 2 else 1), found := r.found + [Conditional(false, 0, 0)])
    case AtElse => done.(found := WithElse(r.found, r.count))
    case AtEnd => done.(found := WithEnd(r.found, r.count))
  }

  function Read(c: char, r: Reading): Reading {
    if !r.inside then
      if c == '{' then Reading(true, AtValue, false, r.count + (if r.hasText then 1 else 0), r.found)
      else r.(hasText := true)
    else if c == '}' then TagRead(r)
    else r.(kind := KindAfter(c, r.kind))
  }

  function ReadAll(s: string, r: Reading): Reading
    decreases s
  {
    if s == "" then r else ReadAll(s[1..], Read(s[0], r))
  }

  const NOTHING_READ := Reading(false, AtValue, false, 0, [])

  /** The conditionals of a format string, in order. */
  function Conditionals(format: string): seq<Conditional> {
    ReadAll(format, NOTHING_READ).found
  }

  // ---- the conditionals of a program ----

  function ConditionalOf(i: Instruction): (c: seq<Conditional>)
    ensures |c| == if i.Test? then 1 else 0
  {
    if i.Test? then [Conditional(i.elseIndex != 0, i.elseIndex, i.endIndex)] else []
  }

  /** The tests of a program, in order. */
  function Tests(p: seq<Instruction>): seq<Conditional> {
    if p == [] then [] else Tests(p[..|p| - 1]) + ConditionalOf(p[|p| - 1])
  }

  lemma AppendedTest(p: seq<Instruction>, x: Instruction)
    ensures Tests(p + [x]) == Tests(p) + ConditionalOf(x)
  {
    assert (p + [x])[..|p|] == p;
  }

  /** Changing the last test of a program changes its last conditional. */
  lemma {:induction false} PatchedTest(p: seq<Instruction>, k: nat, x: Instruction)
    requires k < |p| && p[k].Test? && x.Test? && forall j :: k < j < |p| ==> !p[j].Test?
    ensures Tests(p) != [] && Tests(p)[|Tests(p)| - 1] == ConditionalOf(p[k])[0]
    ensures Tests(p[k := x]) == Tests(p)[|Tests(p)| - 1 := ConditionalOf(x)[0]]
  {
    var init, last := p[..|p| - 1], p[|p| - 1];
    if k == |p| - 1 {
      assert p[k := x][..k] == init;
    } else {
      PatchedTest(init, k, x);
      assert p[k := x][..|p| - 1] == init[k := x];
      assert ConditionalOf(last) == [];
      assert Tests(p) == Tests(init) && Tests(p[k := x]) == Tests(init[k := x]);
    }
  }

  // ---- the parser and the reader ----

  function KindOf(mode: Mode): TagKind {
    if ReadsIfColumn(mode) then AtIf(false)
    else if IsBehindOperator(mode) then AtIf(true)
    else if mode.ElseTag? then AtElse
    else if mode.EndTag? then AtEnd
    else AtValue
  }

  /** Parser and reader have come equally far. Behind an operator the test is a token already. */
  predicate Agree(st: State, r: Reading)
    requires st.Fits()
  {
    var p := Views(st.tokens, st.count);
    && (r.inside <==> !st.mode.Plain?)
    && (r.inside ==> r.kind == KindOf(st.mode))
    && (r.hasText <==> st.mode.Plain? && st.mode.length > 0)
    && if IsBehindOperator(st.mode) then st.count == r.count + 1 && Tests(p) == r.found + [Conditional(false, 0, 0)]
       else st.count == r.count && Tests(p) == r.found
  }

  /** One round of the parser reads one or two characters. */
  function ReadRound(s: string, n: nat, r: Reading): Reading
    requires 1 <= n <= 2 && n <= |s|
  {
    if n == 1 then Read(s[0], r) else Read(s[1], Read(s[0], r))
  }

  lemma ReadAfter(s: string, n: nat, r: Reading)
    requires 1 <= n <= 2 && n <= |s|
    ensures ReadAll(s, r) == ReadAll(s[n..], ReadRound(s, n, r))
  {
    hide Read;
    if n == 2 {
      assert s[1..][1..] == s[2..];
    }
  }

  /** Which modes a round inside a tag leads to, and how many tokens it completes. */
  lemma TagStepModes(s: string, at: nat, st: State)
    requires st.Fits() && s != "" && !st.mode.Plain? && !st.mode.ElseTag? && !st.mode.EndTag?
    ensures var r := Step(s, at, st);
            r.Some? ==>
              var (n, next) := (r.value.0, r.value.1);
              && n <= 2 && (next.mode.Plain? <==> s[0] == '}') && (next.mode.Plain? ==> n == 1 && next.mode.length == 0)
              && (n == 2 ==> s[1] != '}')
              && (!next.mode.Plain? ==>
                    KindOf(next.mode) == if n == 1 then KindAfter(s[0], KindOf(st.mode))
                                         else KindAfter(s[1], KindAfter(s[0], KindOf(st.mode))))
              && (IsBehindOperator(next.mode) ==> IsBehindOperator(st.mode) || ReadsIfColumn(st.mode))
              && (IsBehindOperator(st.mode) ==> IsBehindOperator(next.mode) || s[0] == '}')
  {
    hide WithProps, WithDetail, WithValue, WithOperand;
  }

  lemma TagStepCounts(s: string, at: nat, st: State)
    requires st.Fits() && s != "" && !st.mode.Plain? && !st.mode.ElseTag? && !st.mode.EndTag?
    ensures var r := Step(s, at, st);
            r.Some? ==>
              r.value.1.count == st.count + (if s[0] == '}' || (ReadsIfColumn(st.mode) && IsBehindOperator(r.value.1.mode))
                                             then 1 else 0)
  {
    hide WithProps, OperatorAt, Invalidated;
  }

  lemma TestsAppended(st: State, next: State)
    requires st.Fits() && next.Fits() && AddsNoText(st, next)
    ensures next.count == st.count ==> Tests(Views(next.tokens, next.count)) == Tests(Views(st.tokens, st.count))
    ensures next.count == st.count + 1 ==>
              Tests(Views(next.tokens, next.count))
              == Tests(Views(st.tokens, st.count)) + ConditionalOf(Views(next.tokens, next.count)[st.count])
  {
    hide Views, Tests;
    var p, q := Views(st.tokens, st.count), Views(next.tokens, next.count);
    if next.count == st.count + 1 {
      AppendedTest(p, q[|p|]);
      assert q == p + [q[|p|]];
    }
  }

  lemma TagAgrees(s: string, at: nat, st: State, r: Reading)
    requires IsSound(st) && s != "" && !st.mode.Plain? && !st.mode.ElseTag? && !st.mode.EndTag? && Agree(st, r)
    ensures var next := Step(s, at, st);
            next.Some? ==> next.value.0 <= 2 && Agree(next.value.1, ReadRound(s, next.value.0, r))
  {
    TagStepModes(s, at, st);
    TagStepCounts(s, at, st);
    TagStepAddsNoText(s, at, st);
    hide Step, IsSound, Tests, KindAfter, KindOf, Views, IsBehindOperator;
    KindsOfModes(st.mode);
    var step := Step(s, at, st);
    if step.Some? {
      var next := step.value.1;
      KindsOfModes(next.mode);
      TestsAppended(st, next);
      if s[0] == '}' {
        assert ReadRound(s, step.value.0, r) == TagRead(r);
      } else {
        hide TagRead;
        assert !next.mode.Plain? && ReadRound(s, step.value.0, r).found == r.found;
      }
    }
  }

  lemma KindsOfModes(mode: Mode)
    ensures IsBehindOperator(mode) <==> KindOf(mode) == AtIf(true)
    ensures ReadsIfColumn(mode) <==> KindOf(mode) == AtIf(false)
    ensures mode.ElseTag? <==> KindOf(mode) == AtElse
    ensures mode.EndTag? <==> KindOf(mode) == AtEnd
  {
  }

  /** The jumps of the open conditional after an else or an end tag. */
  function Patch(st: State): Detail
    requires st.Fits() && st.openIf.Some?
  {
    var jumps := JumpsOf(st.tokens[st.openIf.value]);
    if st.mode.ElseTag? then jumps.(elseIndex := st.count) else jumps.(endIndex := st.count)
  }

  lemma JumpStep(s: string, at: nat, st: State)
    requires st.Fits() && s != "" && (st.mode.ElseTag? || st.mode.EndTag?)
    ensures var r := Step(s, at, st);
            r.Some? ==>
              var next := r.value.1;
              && r.value.0 == 1 && s[0] == '}' && st.openIf.Some? && next.mode == Plain(0) && next.count == st.count
              && next.tokens == WithDetail(st, st.openIf.value, Patch(st)).tokens
  {
  }

  lemma PatchedView(token: Token, st: State)
    requires st.Fits() && st.openIf.Some? && token == st.tokens[st.openIf.value] && token.tokenType == IfLhs
    requires st.mode.ElseTag? || st.mode.EndTag?
    requires st.count > 0
    ensures var (x, y) := (View(token), View(token.(detail := Patch(st))));
            && x.Test? && y.Test? && |ConditionalOf(x)| == |ConditionalOf(y)| == 1
            && ConditionalOf(y)[0]
                 == if st.mode.ElseTag? then ConditionalOf(x)[0].(hasElse := true, elseIndex := st.count)
                    else ConditionalOf(x)[0].(endIndex := st.count)
  {
  }

  /** Parser and reader change the last conditional alike. */
  lemma ReadJump(st: State, next: State, r: Reading)
    requires st.Fits() && next.Fits() && (st.mode.ElseTag? || st.mode.EndTag?) && Agree(st, r)
    requires next.mode == Plain(0) && next.count == st.count
    requires var (found, found') := (Tests(Views(st.tokens, st.count)), Tests(Views(next.tokens, next.count)));
             && found != []
             && found' == if st.mode.ElseTag? then WithElse(found, st.count) else WithEnd(found, st.count)
    ensures Agree(next, Read('}', r))
  {
    hide Tests, Views, WithElse, WithEnd;
  }

  lemma JumpAgrees(s: string, at: nat, st: State, r: Reading)
    requires IsSound(st) && s != "" && (st.mode.ElseTag? || st.mode.EndTag?) && Agree(st, r)
    ensures var next := Step(s, at, st);
            next.Some? ==> next.value.0 == 1 && Agree(next.value.1, ReadRound(s, 1, r))
  {
    var step := Step(s, at, st);
    JumpStep(s, at, st);
    if step.Some? {
      OpenIfIsTest(st);
      LastTest(st);
      assert ReadRound(s, 1, r) == Read(s[0], r) == Read('}', r);
      hide Step, IsSound, Tests, Views, WithDetail, IsPartial, Patch, ConditionalOf, View, Agree, Read, ReadRound;
      var k, p := st.openIf.value, Views(st.tokens, st.count);
      ViewsOfDetail(st, k, Patch(st));
      PatchedView(st.tokens[k], st);
      PatchedTest(p, k, View(st.tokens[k].(detail := Patch(st))));
      ReadJump(st, step.value.1, r);
    }
  }

  lemma LastTest(st: State)
    requires IsSound(st) && (st.mode.ElseTag? || st.mode.EndTag?) && st.openIf.Some?
    ensures forall j :: st.openIf.value < j < st.count ==> !Views(st.tokens, st.count)[j].Test?
  {
    OpenIfIsTest(st);
  }

  lemma PlainAgrees(s: string, at: nat, st: State, r: Reading)
    requires IsSound(st) && s != "" && st.mode.Plain? && st.mode.length <= at && Agree(st, r)
    ensures var next := Step(s, at, st);
            next.Some? ==> next.value.0 == 1 && Agree(next.value.1, ReadRound(s, 1, r))
  {
    hide IsPartial, Tests, Views, Stored, WithProps;
    var step := Step(s, at, st);
    if step.Some? && s[0] == '{' {
      var flushed := Flush(st, at).value;
      ViewsOfProps(flushed, NO_PROPS);
      if st.mode.length > 0 {
        var token := st.tokens[st.count].(tokenType := TextToken, detail := Span(at - st.mode.length, st.mode.length));
        ViewsOfStored(st, token);
        AppendedTest(Views(st.tokens, st.count), View(token));
      }
    }
  }

  lemma StepAgrees(s: string, at: nat, st: State, r: Reading)
    requires IsIn(st, at) && s != "" && st.Fits() && Agree(st, r)
    ensures var next := Step(s, at, st);
            next.Some? ==>
              && next.value.0 <= 2 && IsIn(next.value.1, at + next.value.0)
              && Agree(next.value.1, ReadRound(s, next.value.0, r))
  {
    StepIsSound(s, at, st);
    hide Step, IsSound, Agree, ReadRound;
    match st.mode
    case Plain(_) => PlainAgrees(s, at, st, r);
    case ElseTag => JumpAgrees(s, at, st, r);
    case EndTag => JumpAgrees(s, at, st, r);
    case _ => TagAgrees(s, at, st, r);
  }

  lemma {:induction false} RunAgrees(s: string, at: nat, st: State, r: Reading)
    requires IsIn(st, at) && st.Fits() && Agree(st, r)
    ensures var last := Run(s, at, st);
            last.Some? ==> IsIn(last.value, at + |s|) && Agree(last.value, ReadAll(s, r))
    decreases |s|
  {
    hide Run, Step, IsSound, Agree, Read;
    RunStep(s, at, st);
    if s != "" && Step(s, at, st).Some? {
      var (n, next) := Step(s, at, st).value;
      StepAgrees(s, at, st, r);
      ReadAfter(s, n, r);
      RunAgrees(s[n..], at + n, next, ReadRound(s, n, r));
    }
  }

  lemma FinishedTests(st: State, length: nat, r: Reading)
    requires IsSound(st) && (st.mode.Plain? ==> st.mode.length <= length) && Agree(st, r)
    ensures var f := Finished(st, length);
            f.Some? ==> Tests(Views(f.value.tokens, f.value.count)) == r.found
  {
    hide IsPartial, Tests, Views, Stored;
    if Finished(st, length).Some? && st.mode.length > 0 {
      var token := st.tokens[st.count].(tokenType := TextToken, detail := Span(length - st.mode.length, st.mode.length));
      ViewsOfStored(st, token);
      AppendedTest(Views(st.tokens, st.count), View(token));
    }
  }

  lemma InitialAgrees(tokens: seq<Token>)
    requires |tokens| == MAX_NUM_TOKENS
    ensures Agree(Initial(tokens), NOTHING_READ)
  {
    assert Views(Initial(tokens).tokens, 0) == [];
  }

  /** The tests of every accepted format string are its conditionals, in order: each has an else index
      exactly when it has an else, and its else index and its end index are the numbers of tokens that
      come before its else tag and before its end tag. */
  lemma AcceptedConditionals(format: string, tokens: seq<Token>)
    requires |tokens| == MAX_NUM_TOKENS
    ensures var parsed := Parse(format, tokens);
            parsed.Some? ==> Tests(Views(parsed.value.tokens, parsed.value.count)) == Conditionals(format)
  {
    var st := Initial(tokens);
    InitialOutline(format, tokens);
    InitialAgrees(tokens);
    hide Run, Finished, Outline, IsSound, Tests, Views, ReadAll, Agree;
    RunAgrees(format, 0, st, NOTHING_READ);
    if Parse(format, tokens).Some? {
      FinishedTests(Run(format, 0, st).value, |format|, ReadAll(format, NOTHING_READ));
    }
  }
}
