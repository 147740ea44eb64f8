/** Parser correctness: parsing the spelling of a template yields the tokens it compiles to. */
module TemplateCorrectness {
  import opened Wrappers
  import opened TemplateSyntax
  import opened TemplateParser
  import opened TemplateCompiler

  // ---- what a machine state has produced so far ----

  function Pending(st: State, at: nat): seq<Instruction> {
    if st.mode.Plain? && 0 < st.mode.length <= at then [WriteText(at - st.mode.length, st.mode.length)] else []
  }

  /** The tokens stored, and the text that is being read. */
  function Code(st: State, at: nat): (code: seq<Instruction>)
    requires st.Fits()
    ensures st.count <= |code|
  {
    Views(st.tokens, st.count) + Pending(st, at)
  }

  /** Beyond the token being worked on, the flags are those that were there before the parse. */
  predicate KeepsLeft(st: State, n: nat, left: seq<Props>)
    requires st.Fits() && |left| == MAX_NUM_TOKENS
  {
    forall j :: n < j < MAX_NUM_TOKENS ==> st.tokens[j].props == left[j]
  }

  predicate IsText(st: State, at: nat) {
    st.Fits() && st.mode.Plain? && st.mode.length <= at <= 255 && (st.openIf.Some? ==> st.openIf.value < st.count)
  }

  lemma ViewsOfStored(st: State, token: Token)
    requires st.Fits() && st.count < MAX_NUM_TOKENS && token.tokenType != Invalid
    ensures var s := Stored(st, token).value;
            && Views(s.tokens, s.count) == Views(st.tokens, st.count) + [View(token)]
            && (forall j :: 0 <= j < MAX_NUM_TOKENS && j != st.count ==> s.tokens[j].props == st.tokens[j].props)
            && s.count == st.count + 1 && s.mode == st.mode && s.openIf == st.openIf && s.pastEnd == st.pastEnd
  {
    var s := Stored(st, token).value;
    assert forall j :: 0 <= j < st.count ==> s.tokens[j] == st.tokens[j];
    assert s.tokens[st.count] == token;
  }

  lemma ViewsOfProps(st: State, props: Props)
    requires st.Fits()
    ensures var s := WithProps(st, props);
            && Views(s.tokens, s.count) == Views(st.tokens, st.count)
            && (forall j :: 0 <= j < MAX_NUM_TOKENS && j != st.count ==> s.tokens[j].props == st.tokens[j].props)
            && (st.count < MAX_NUM_TOKENS ==> s.tokens[st.count] == st.tokens[st.count].(props := props))
            && s.pastEnd == (st.pastEnd || st.count == MAX_NUM_TOKENS)
  {
    var s := WithProps(st, props);
    assert forall j :: 0 <= j < st.count ==> s.tokens[j] == st.tokens[j];
  }

  lemma ViewsOfDetail(st: State, i: nat, detail: Detail)
    requires st.Fits() && i < MAX_NUM_TOKENS
    ensures var s := WithDetail(st, i, detail);
            && s.tokens[i] == st.tokens[i].(detail := detail)
            && (forall j :: 0 <= j < MAX_NUM_TOKENS ==> s.tokens[j].props == st.tokens[j].props)
            && (i < st.count ==> Views(s.tokens, s.count) == Views(st.tokens, st.count)[i := View(s.tokens[i])])
            && (i >= st.count ==> Views(s.tokens, s.count) == Views(st.tokens, st.count))
            && s == st.(tokens := s.tokens)
  {
    var s := WithDetail(st, i, detail);
    assert forall j :: 0 <= j < MAX_NUM_TOKENS && j != i ==> s.tokens[j] == st.tokens[j];
  }

  lemma CodeAtTag(st: State, at: nat, left: seq<Props>)
    requires IsText(st, at) && at < 255 && |left| == MAX_NUM_TOKENS && KeepsLeft(st, |Code(st, at)|, left)
    ensures Opened(st, at).None? ==> |Code(st, at)| > MAX_NUM_TOKENS
    ensures Opened(st, at).Some? ==>
              var o := Opened(st, at).value;
              && o.count == |Code(st, at)| && Views(o.tokens, o.count) == Code(st, at)
              && o.openIf == st.openIf && KeepsLeft(o, o.count, left)
              && o.pastEnd == (st.pastEnd || o.count == MAX_NUM_TOKENS)
              && (o.count < MAX_NUM_TOKENS ==> o.tokens[o.count].props == NO_PROPS)
  {
    hide Stored, WithProps;
    if st.mode.length > 0 && st.count < MAX_NUM_TOKENS {
      var token := st.tokens[st.count].(tokenType := TextToken, detail := Span(at - st.mode.length, st.mode.length));
      ViewsOfStored(st, token);
    }
    if Opened(st, at).Some? {
      var flushed := Flush(st, at).value;
      ViewsOfProps(flushed, NO_PROPS);
    }
  }

  /** From st at position at the machine has come to next at position to, and added code. */
  predicate Reaches(st: State, at: nat, next: State, to: nat, code: seq<Instruction>, left: seq<Props>)
    requires st.Fits() && |left| == MAX_NUM_TOKENS
  {
    && IsText(next, to)
    && Code(next, to) == Code(st, at) + code
    && KeepsLeft(next, |Code(next, to)|, left)
  }

  predicate Adds(st: State, at: nat, next: State, to: nat, code: seq<Instruction>, left: seq<Props>)
    requires st.Fits() && |left| == MAX_NUM_TOKENS
  {
    Reaches(st, at, next, to, code, left) && next.pastEnd == st.pastEnd
  }

  lemma TagCode(v: Value, st: State, at: nat, to: nat, left: seq<Props>)
    requires IsText(st, at) && at < 255 && to <= 255 && IsValue(v)
    requires |left| == MAX_NUM_TOKENS && KeepsLeft(st, |Code(st, at)|, left)
    ensures TagStored(v, st, at).None? ==> |Code(st, at)| >= MAX_NUM_TOKENS
    ensures TagStored(v, st, at).Some? ==>
              var next := TagStored(v, st, at).value;
              && Adds(st, at, next, to, [ValueInstruction(v)], left)
              && next.mode == Plain(0) && next.openIf == st.openIf
  {
    hide Stored, WithProps, PlainStep;
    CodeAtTag(st, at, left);
    if TagStored(v, st, at).Some? {
      var o := Opened(st, at).value;
      ViewsOfProps(o, v.flags);
      var p := WithProps(o, v.flags);
      var token := p.tokens[p.count].(tokenType := ValueToken, valueType := TypeOf(v), number := NumberIn(v));
      ViewsOfStored(p, token);
    }
  }

  lemma RhsCode(c: Comparison, st: State, at: nat, to: nat, left: Props)
    requires st.Fits() && IsRhs(c.rhs) && (st.count < MAX_NUM_TOKENS ==> st.tokens[st.count].props == left)
    ensures RhsStored(c, st).None? ==> st.count == MAX_NUM_TOKENS
    ensures RhsStored(c, st).Some? ==>
              var next := RhsStored(c, st).value;
              && Views(next.tokens, next.count) == Views(st.tokens, st.count) + CompileTest(Some(c), left)
              && (forall j :: 0 <= j < MAX_NUM_TOKENS && j != st.count ==> next.tokens[j].props == st.tokens[j].props)
              && next.count == st.count + 1 && next.openIf == st.openIf && next.pastEnd == st.pastEnd
              && next.mode == Plain(0)
  {
    hide Stored, WithProps;
    if st.count < MAX_NUM_TOKENS {
      var plus := RhsPlus(c.rhs);
      ViewsOfProps(st, PropsOf(st).(offset1 := true));
      var p := WithPlus(st, plus);
      ViewsOfDetail(p, p.count, IfOperator(c.op));
      var d := WithDetail(p, p.count, IfOperator(c.op));
      var token := d.tokens[d.count].(tokenType := IfRhs, valueType := RhsType(c.rhs), number := RhsNumber(c.rhs));
      ViewsOfStored(d, token);
      assert left.(offset1 := left.offset1 || false) == left;
    }
  }

  lemma HeadCode(item: Item, st: State, at: nat, to: nat, left: seq<Props>)
    requires IsText(st, at) && at < 255 && to <= 255 && item.If? && IsItem(item) && st.openIf.None?
    requires |left| == MAX_NUM_TOKENS && KeepsLeft(st, |Code(st, at)|, left)
    ensures HeadStored(item, st, at).None? ==> |Code(st, at)| + HeadSize(item) > MAX_NUM_TOKENS
    ensures HeadStored(item, st, at).Some? ==>
              var next := HeadStored(item, st, at).value;
              && Adds(st, at, next, to,
                      [Test(NumberOf(item.id), item.flags, 0, 0)]
                      + CompileTest(item.test, LeftAt(left, |Code(st, at)| + 1)), left)
              && next.mode == Plain(0) && next.openIf == Some(|Code(st, at)|)
  {
    hide Stored, WithProps, PlainStep, WithDetail, RhsStored, CompileTest, IsRhs, NumberOf;
    CodeAtTag(st, at, left);
    if Opened(st, at).Some? && Opened(st, at).value.count < MAX_NUM_TOKENS {
      var o := Opened(st, at).value;
      ViewsOfProps(o, item.flags);
      var p := WithProps(o, item.flags);
      ViewsOfDetail(p, p.count, Jumps(0, 0));
      var d := WithDetail(p, p.count, Jumps(0, 0)).(openIf := Some(p.count));
      var token := d.tokens[d.count].(tokenType := IfLhs, valueType := ColumnValue, number := NumberOf(item.id));
      ViewsOfStored(d, token);
      var lhs := WithValue(d, IfLhs, ColumnValue, NumberOf(item.id)).value;
      assert View(token) == Test(NumberOf(item.id), item.flags, 0, 0);
      if item.test.Some? {
        RhsCode(item.test.value, lhs, at, to, LeftAt(left, lhs.count));
      } else {
        NoTest(LeftAt(left, lhs.count));
      }
    }
  }

  lemma NoTest(left: Props)
    ensures CompileTest(None, left) == []
  {
  }

  /** The view of the open if, once its else or its end is known. */
  function Jumped(i: Instruction, elseIndex: nat, endIndex: nat): Instruction {
    if i.Test? then i.(elseIndex := elseIndex, endIndex := endIndex) else i
  }

  lemma ElseCode(st: State, at: nat, to: nat, left: seq<Props>)
    requires IsText(st, at) && at < 255 && to <= 255 && st.openIf.Some?
    requires |left| == MAX_NUM_TOKENS && KeepsLeft(st, |Code(st, at)|, left)
    requires var i := Code(st, at)[st.openIf.value]; i.Test? && i.elseIndex == 0
    ensures ElseStored(st, at).None? ==> |Code(st, at)| > MAX_NUM_TOKENS
    ensures ElseStored(st, at).Some? ==>
              var (next, k) := (ElseStored(st, at).value, st.openIf.value);
              && IsText(next, to) && next.mode == Plain(0) && next.openIf == st.openIf
              && KeepsLeft(next, |Code(st, at)|, left)
              && Code(next, to) == Code(st, at)[k := Jumped(Code(st, at)[k], |Code(st, at)|, Code(st, at)[k].endIndex)]
              && next.pastEnd == (st.pastEnd || |Code(st, at)| == MAX_NUM_TOKENS)
              && |Code(st, at)| <= MAX_NUM_TOKENS
  {
    hide PlainStep, WithDetail;
    CodeAtTag(st, at, left);
    if Opened(st, at).Some? {
      var o, k := Opened(st, at).value, st.openIf.value;
      assert View(o.tokens[k]) == Views(o.tokens, o.count)[k];
      ViewsOfDetail(o, k, JumpsOf(o.tokens[k]).(elseIndex := o.count));
    }
  }

  lemma EndCode(st: State, at: nat, to: nat, left: seq<Props>)
    requires IsText(st, at) && at < 255 && to <= 255 && st.openIf.Some?
    requires |left| == MAX_NUM_TOKENS && KeepsLeft(st, |Code(st, at)|, left)
    requires Code(st, at)[st.openIf.value].Test?
    ensures EndStored(st, at).None? ==> |Code(st, at)| > MAX_NUM_TOKENS
    ensures EndStored(st, at).Some? ==>
              var (next, k) := (EndStored(st, at).value, st.openIf.value);
              && IsText(next, to) && next.mode == Plain(0) && next.openIf == None
              && KeepsLeft(next, |Code(st, at)|, left)
              && Code(next, to) == Code(st, at)[k := Jumped(Code(st, at)[k], Code(st, at)[k].elseIndex, |Code(st, at)|)]
              && next.pastEnd == (st.pastEnd || |Code(st, at)| == MAX_NUM_TOKENS)
              && |Code(st, at)| <= MAX_NUM_TOKENS
  {
    hide PlainStep, WithDetail;
    CodeAtTag(st, at, left);
    if Opened(st, at).Some? {
      var o, k := Opened(st, at).value, st.openIf.value;
      assert View(o.tokens[k]) == Views(o.tokens, o.count)[k];
      ViewsOfDetail(o, k, JumpsOf(o.tokens[k]).(endIndex := o.count));
    }
  }

  // ---- runs over printed pieces ----

  lemma TextCode(text: string, st: State, at: nat, left: seq<Props>)
    requires IsText(st, at) && st.mode == Plain(0) && text != "" && at + |text| <= 255
    requires |left| == MAX_NUM_TOKENS && KeepsLeft(st, |Code(st, at)|, left)
    ensures Adds(st, at, st.(mode := Plain(|text|)), at + |text|, [WriteText(at, |text|)], left)
  {
    hide Views;
  }

  lemma RunPart(p: Part, rest: string, st: State, at: nat, left: seq<Props>) returns (failed: bool, next: State)
    requires IsText(st, at) && IsPart(p) && (p.Text? ==> st.mode == Plain(0))
    requires at + |PrintPart(p)| <= 255
    requires |left| == MAX_NUM_TOKENS && KeepsLeft(st, |Code(st, at)|, left)
    ensures next.Fits()
    ensures failed ==> Run(PrintPart(p) + rest, at, st).None? && |Code(st, at)| + 1 > MAX_NUM_TOKENS
    ensures !failed ==>
              var to := at + |PrintPart(p)|;
              && Run(PrintPart(p) + rest, at, st) == Run(rest, to, next)
              && Adds(st, at, next, to, [CompilePart(p, at)], left)
              && (p.Tag? ==> next.mode == Plain(0)) && next.openIf == st.openIf
  {
    hide Run, ValueInstruction, PrintValue, Adds, Code, KeepsLeft;
    var to := at + |PrintPart(p)|;
    if p.Text? {
      RunText(p.text, rest, at, st);
      TextCode(p.text, st, at, left);
      next, failed := st.(mode := Plain(|p.text|)), false;
    } else {
      hide TagStored, IsValue;
      RunTag(p.value, rest, at, st);
      TagCode(p.value, st, at, to, left);
      failed := TagStored(p.value, st, at).None?;
      next := if failed then st else TagStored(p.value, st, at).value;
    }
  }

  /** A list of parts may follow st: two texts do not meet. */
  predicate MayFollow(parts: seq<Part>, st: State) {
    parts != [] && parts[0].Text? ==> st.mode == Plain(0)
  }

  lemma {:induction false} RunParts(parts: seq<Part>, rest: string, st: State, at: nat, left: seq<Props>)
    returns (failed: bool, next: State)
    requires IsText(st, at) && AreParts(parts) && MayFollow(parts, st)
    requires at + |PrintParts(parts)| <= 255
    requires |left| == MAX_NUM_TOKENS && KeepsLeft(st, |Code(st, at)|, left)
    ensures next.Fits()
    ensures failed ==> Run(PrintParts(parts) + rest, at, st).None? && |Code(st, at)| + |parts| > MAX_NUM_TOKENS
    ensures !failed ==>
              var to := at + |PrintParts(parts)|;
              && Run(PrintParts(parts) + rest, at, st) == Run(rest, to, next)
              && Adds(st, at, next, to, CompileParts(parts, at), left)
              && next.openIf == st.openIf
    decreases parts
  {
    hide Run, Code, CompilePart, PrintPart, KeepsLeft;
    if parts == [] {
      assert PrintParts(parts) + rest == rest;
      assert Code(st, at) + [] == Code(st, at);
      return false, st;
    }
    var p, others := parts[0], parts[1..];
    assert PrintParts(parts) + rest == PrintPart(p) + (PrintParts(others) + rest);
    failed, next := RunPart(p, PrintParts(others) + rest, st, at, left);
    if !failed {
      var mid, to := next, at + |PrintPart(p)|;
      failed, next := RunParts(others, rest, mid, to, left);
      assert Code(st, at) + ([CompilePart(p, at)] + CompileParts(others, to))
          == (Code(st, at) + [CompilePart(p, at)]) + CompileParts(others, to);
    }
  }

  /** Patching the jumps of a conditional that starts after c. */
  lemma Assembled(c: seq<Instruction>, test: seq<Instruction>, thn: seq<Instruction>, els: seq<Instruction>,
                  i0: Instruction, i1: Instruction, i2: Instruction)
    ensures ((c + ([i0] + test) + thn)[|c| := i1] + els)[|c| := i2] == c + ([i2] + test + thn + els)
    ensures (c + ([i0] + test) + thn)[|c| := i2] == c + ([i2] + test + thn + [])
    ensures (c + ([i0] + test) + thn)[|c|] == i0
    ensures ((c + ([i0] + test) + thn)[|c| := i1] + els)[|c|] == i1
  {
  }

  /** The else branch, from its tag to the end tag. */
  lemma RunElsePart(els: seq<Part>, rest: string, st: State, at: nat, left: seq<Props>)
    returns (failed: bool, next: State)
    requires IsText(st, at) && st.openIf.Some? && AreParts(els) && at + 3 + |PrintParts(els)| <= 255
    requires |left| == MAX_NUM_TOKENS && KeepsLeft(st, |Code(st, at)|, left)
    requires var i := Code(st, at)[st.openIf.value]; i.Test? && i.elseIndex == 0
    ensures next.Fits()
    ensures failed ==>
              Run("{:}" + PrintParts(els) + rest, at, st).None? && |Code(st, at)| + |els| > MAX_NUM_TOKENS
    ensures !failed ==>
              var (to, k) := (at + 3 + |PrintParts(els)|, st.openIf.value);
              var i := Code(st, at)[k];
              && Run("{:}" + PrintParts(els) + rest, at, st) == Run(rest, to, next)
              && IsText(next, to)
              && Code(next, to) == Code(st, at)[k := Jumped(i, |Code(st, at)|, i.endIndex)] + CompileParts(els, at + 3)
              && KeepsLeft(next, |Code(next, to)|, left)
              && next.openIf == st.openIf
              && next.pastEnd == (st.pastEnd || |Code(st, at)| == MAX_NUM_TOKENS)
  {
    hide Run, Code, PrintParts, CompileParts, KeepsLeft, ElseStored, AreParts;
    var tail := PrintParts(els) + rest;
    assert "{:}" + PrintParts(els) + rest == "{:}" + tail;
    RunElse(tail, at, st);
    ElseCode(st, at, at + 3, left);
    failed := ElseStored(st, at).None?;
    next := if failed then st else ElseStored(st, at).value;
    if !failed {
      failed, next := RunParts(els, rest, next, at + 3, left);
    }
  }

  /** The code of a conditional whose tag is at `at`, as its tags and branches leave it. */
  lemma CodeOfIf(item: Item, c: seq<Instruction>, at: nat, left: seq<Props>)
    requires IsItem(item) && item.If?
    ensures var (k, at2) := (|c|, at + |PrintHead(item, Bare)| + |PrintParts(item.thn)|);
            var i0 := Test(NumberOf(item.id), item.flags, 0, 0);
            var code2 := c + ([i0] + CompileTest(item.test, LeftAt(left, k + 1)))
                         + CompileParts(item.thn, at + |PrintHead(item, Bare)|);
            var i1 := Jumped(i0, if item.els.Some? then |code2| else 0, 0);
            var code3 := if item.els.Some? then code2[k := i1] + CompileElse(item.els, at2) else code2;
            && code2[k] == i0 && code3[k] == (if item.els.Some? then i1 else i0)
            && code3[k := Jumped(i1, i1.elseIndex, |code3|)] == c + CompileItem(item, at, k, left)
            && |code2| == k + HeadSize(item) + |item.thn| && |code3| == k + ItemSize(item)
  {
    hide PrintHead, PrintParts, CompileParts, CompileTest, AreParts, NumberOf, IsRhs;
    var (k, at2) := (|c|, at + |PrintHead(item, Bare)| + |PrintParts(item.thn)|);
    var i0 := Test(NumberOf(item.id), item.flags, 0, 0);
    var test, thn := CompileTest(item.test, LeftAt(left, k + 1)), CompileParts(item.thn, at + |PrintHead(item, Bare)|);
    var els, n := CompileElse(item.els, at2), k + HeadSize(item) + |item.thn|;
    var i1 := Jumped(i0, if item.els.Some? then n else 0, 0);
    Assembled(c, test, thn, els, i0, i1, Jumped(i1, i1.elseIndex, k + ItemSize(item)));
  }

  /** The rest of a conditional behind its first branch. */
  lemma RunRestOfIf(item: Item, rest: string, st: State, at: nat, left: seq<Props>) returns (failed: bool, next: State)
    requires IsText(st, at) && IsItem(item) && item.If? && st.openIf.Some?
    requires at + |PrintElse(item.els)| + 3 <= 255
    requires |left| == MAX_NUM_TOKENS && KeepsLeft(st, |Code(st, at)|, left)
    requires var i := Code(st, at)[st.openIf.value]; i.Test? && i.elseIndex == 0 && i.endIndex == 0
    ensures next.Fits()
    ensures failed ==>
              && Run(PrintElse(item.els) + ("{;}" + rest), at, st).None?
              && |Code(st, at)| + ElseSize(item.els) > MAX_NUM_TOKENS
    ensures !failed ==>
              var (to, k, n) := (at + |PrintElse(item.els)| + 3, st.openIf.value, |Code(st, at)|);
              var i1 := Jumped(Code(st, at)[k], if item.els.Some? then n else 0, 0);
              var code := if item.els.Some? then Code(st, at)[k := i1] + CompileElse(item.els, at) else Code(st, at);
              && Run(PrintElse(item.els) + ("{;}" + rest), at, st) == Run(rest, to, next)
              && IsText(next, to) && Code(next, to) == code[k := Jumped(i1, i1.elseIndex, |code|)]
              && KeepsLeft(next, |Code(next, to)|, left)
              && next.mode == Plain(0) && next.openIf.None? && |code| <= MAX_NUM_TOKENS
              && next.pastEnd == (st.pastEnd || |code| == MAX_NUM_TOKENS)
  {
    hide Run, Code, PrintParts, CompileParts, KeepsLeft, EndStored, AreParts;
    var s, to := st, at + |PrintElse(item.els)|;
    if item.els.Some? {
      assert PrintElse(item.els) + ("{;}" + rest) == "{:}" + PrintParts(item.els.value) + ("{;}" + rest);
      failed, s := RunElsePart(item.els.value, "{;}" + rest, st, at, left);
      if failed {
        return true, st;
      }
    } else {
      assert PrintElse(item.els) + ("{;}" + rest) == "{;}" + rest;
    }
    RunEnd(rest, to, s);
    EndCode(s, to, to + 3, left);
    failed := EndStored(s, to).None?;
    next := if failed then st else EndStored(s, to).value;
  }

  lemma RunIfItem(item: Item, rest: string, st: State, at: nat, left: seq<Props>) returns (failed: bool, next: State)
    requires IsText(st, at) && IsItem(item) && item.If? && st.openIf.None?
    requires at + |PrintItem(item, Bare)| <= 255
    requires |left| == MAX_NUM_TOKENS && KeepsLeft(st, |Code(st, at)|, left)
    ensures next.Fits()
    ensures failed ==>
              Run(PrintItem(item, Bare) + rest, at, st).None? && |Code(st, at)| + ItemSize(item) > MAX_NUM_TOKENS
    ensures !failed ==>
              var (to, k) := (at + |PrintItem(item, Bare)|, |Code(st, at)|);
              && Run(PrintItem(item, Bare) + rest, at, st) == Run(rest, to, next)
              && Reaches(st, at, next, to, CompileItem(item, at, k, left), left)
              && next.mode == Plain(0) && next.openIf.None?
              && next.pastEnd == (st.pastEnd || k + ItemSize(item) == MAX_NUM_TOKENS)
  {
    hide Run, Code, PrintParts, PrintHead, PrintElse, CompileParts, CompileTest, CompileElse, CompileItem,
      KeepsLeft, HeadStored, AreParts, NumberOf, IsRhs;
    var head, thn := PrintHead(item, Bare), PrintParts(item.thn);
    var tail := PrintElse(item.els) + ("{;}" + rest);
    assert PrintItem(item, Bare) + rest == head + (thn + tail);
    CodeOfIf(item, Code(st, at), at, left);
    RunHead(item, thn + tail, at, st);
    HeadCode(item, st, at, at + |head|, left);
    failed := HeadStored(item, st, at).None?;
    if failed {
      return true, st;
    }
    next := HeadStored(item, st, at).value;
    failed, next := RunParts(item.thn, tail, next, at + |head|, left);
    if failed {
      return true, st;
    }
    failed, next := RunRestOfIf(item, rest, next, at + |head| + |thn|, left);
  }

  lemma RunItem(item: Item, rest: string, st: State, at: nat, left: seq<Props>) returns (failed: bool, next: State)
    requires IsText(st, at) && IsItem(item) && st.openIf.None?
    requires TemplateSyntax.IsText(item) ==> st.mode == Plain(0)
    requires at + |PrintItem(item, Bare)| <= 255
    requires |left| == MAX_NUM_TOKENS && KeepsLeft(st, |Code(st, at)|, left)
    ensures next.Fits()
    ensures failed ==>
              Run(PrintItem(item, Bare) + rest, at, st).None? && |Code(st, at)| + ItemSize(item) > MAX_NUM_TOKENS
    ensures !failed ==>
              var (to, k) := (at + |PrintItem(item, Bare)|, |Code(st, at)|);
              && Run(PrintItem(item, Bare) + rest, at, st) == Run(rest, to, next)
              && Reaches(st, at, next, to, CompileItem(item, at, k, left), left)
              && (!TemplateSyntax.IsText(item) ==> next.mode == Plain(0)) && next.openIf.None?
              && next.pastEnd == (st.pastEnd || (item.If? && k + ItemSize(item) == MAX_NUM_TOKENS))
  {
    if item.Single? {
      hide Run, Code, KeepsLeft, PrintPart, CompilePart;
      failed, next := RunPart(item.part, rest, st, at, left);
    } else {
      hide *;
      failed, next := RunIfItem(item, rest, st, at, left);
    }
  }

  function Size(t: Template): nat {
    if t == [] then 0 else ItemSize(t[0]) + Size(t[1..])
  }

  /** Some conditional ends when the array of tokens is full. */
  predicate EndsFull(t: Template, k: nat) {
    t != [] && ((t[0].If? && k + ItemSize(t[0]) == MAX_NUM_TOKENS) || EndsFull(t[1..], k + ItemSize(t[0])))
  }

  lemma {:induction false} EndsFullAtLast(t: Template, k: nat)
    requires k + Size(t) <= MAX_NUM_TOKENS
    ensures EndsFull(t, k) <==> t != [] && t[|t| - 1].If? && k + Size(t) == MAX_NUM_TOKENS
  {
    if t != [] {
      EndsFullAtLast(t[1..], k + ItemSize(t[0]));
      if |t| > 1 {
        assert t[1..][|t| - 2] == t[|t| - 1];
        assert Size(t[1..]) >= ItemSize(t[1..][0]) >= 1;
      }
    }
  }

  lemma {:induction false} CompileSize(t: Template, at: nat, k: nat, left: seq<Props>)
    requires IsTemplate(t)
    ensures |Compile(t, at, k, left)| == Size(t)
  {
    hide CompileItem, PrintItem, IsItem;
    if t != [] {
      CompileSize(t[1..], at + |PrintItem(t[0], Bare)|, k + ItemSize(t[0]), left);
    }
  }

  lemma {:induction false} RunTemplate(t: Template, st: State, at: nat, left: seq<Props>)
    returns (failed: bool, next: State)
    requires IsText(st, at) && IsTemplate(t) && st.openIf.None?
    requires t != [] && TemplateSyntax.IsText(t[0]) ==> st.mode == Plain(0)
    requires at + |Print(t, Bare)| <= 255
    requires |left| == MAX_NUM_TOKENS && KeepsLeft(st, |Code(st, at)|, left)
    ensures next.Fits()
    ensures failed ==> Run(Print(t, Bare), at, st).None? && |Code(st, at)| + Size(t) > MAX_NUM_TOKENS
    ensures !failed ==>
              var (to, k) := (at + |Print(t, Bare)|, |Code(st, at)|);
              && Run(Print(t, Bare), at, st) == Some(next)
              && Reaches(st, at, next, to, Compile(t, at, k, left), left)
              && next.openIf.None? && next.pastEnd == (st.pastEnd || EndsFull(t, k))
    decreases t
  {
    hide Code, KeepsLeft, PrintItem, CompileItem, Step, IsItem;
    if t == [] {
      assert Code(st, at) + [] == Code(st, at);
      return false, st;
    }
    hide Run;
    var item, others := t[0], t[1..];
    failed, next := RunItem(item, Print(others, Bare), st, at, left);
    if !failed {
      var mid, to, k := next, at + |PrintItem(item, Bare)|, |Code(st, at)|;
      failed, next := RunTemplate(others, mid, to, left);
      assert (Code(st, at) + CompileItem(item, at, k, left)) + Compile(others, to, k + ItemSize(item), left)
          == Code(st, at) + (CompileItem(item, at, k, left) + Compile(others, to, k + ItemSize(item), left));
    }
  }

  function LeftBy(tokens: seq<Token>): (left: seq<Props>)
    ensures |left| == |tokens|
  {
    seq(|tokens|, i requires 0 <= i < |tokens| => tokens[i].props)
  }

  /** The end of the parse stores a last text. */
  lemma FinishedCode(st: State, at: nat)
    requires IsText(st, at) && st.openIf.None?
    ensures Finished(st, at).Some? <==> 0 < |Code(st, at)| <= MAX_NUM_TOKENS
    ensures Finished(st, at).Some? ==>
              var f := Finished(st, at).value;
              Views(f.tokens, f.count) == Code(st, at) && f.pastEnd == st.pastEnd
  {
    hide Stored;
    if st.mode.length > 0 && st.count < MAX_NUM_TOKENS {
      ViewsOfStored(st, st.tokens[st.count].(tokenType := TextToken, detail := Span(at - st.mode.length, st.mode.length)));
    }
  }

  /** A template is accepted exactly when it is not empty and stays within the limits on tokens and
      characters; and then it yields the tokens it compiles to, whatever earlier parses left in the
      array, except that the flags of right-hand sides are those left there.  The code writes past
      the array exactly when the template uses up the tokens and ends with a conditional. */
  lemma ParserIsCorrect(t: Template, tokens: seq<Token>)
    requires IsTemplate(t) && |tokens| == MAX_NUM_TOKENS
    ensures Parse(Print(t, Bare), tokens).Some? <==> 0 < Size(t) <= MAX_NUM_TOKENS && |Print(t, Bare)| <= 255
    ensures Parse(Print(t, Bare), tokens).Some? ==>
              var parsed := Parse(Print(t, Bare), tokens).value;
              && Views(parsed.tokens, parsed.count) == Compile(t, 0, 0, LeftBy(tokens))
              && (parsed.pastEnd <==> Size(t) == MAX_NUM_TOKENS && t[|t| - 1].If?)
  {
    hide Run, Finished, Print, IsTemplate, Compile;
    var st, n := Initial(tokens), |Print(t, Bare)|;
    if n <= 255 {
      assert Code(st, 0) == [];
      var failed, next := RunTemplate(t, st, 0, LeftBy(tokens));
      if !failed {
        CompileSize(t, 0, 0, LeftBy(tokens));
        assert Code(st, 0) + Compile(t, 0, 0, LeftBy(tokens)) == Compile(t, 0, 0, LeftBy(tokens));
        FinishedCode(next, n);
        if Size(t) <= MAX_NUM_TOKENS {
          EndsFullAtLast(t, 0);
        }
      }
    } else {
      TooLong(t, tokens);
    }
  }

  lemma TooLong(t: Template, tokens: seq<Token>)
    requires |tokens| == MAX_NUM_TOKENS && |Print(t, Bare)| > 255
    ensures Parse(Print(t, Bare), tokens).None?
  {
    hide Run;
  }
}
