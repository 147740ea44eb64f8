/** The scanning interpreter on the spelling of a template: piece by piece it writes what
    ScannedPieces says. */
module InterpreterRuns {
  import opened MachineInts
  import opened Wrappers
  import opened TemplateSyntax
  import opened FormatInterpreter
  import opened InterpreterCorrectness

  // ---- one character, digits, flags ----

  lemma RunChar(c: char, rest: string, st: State, env: Env)
    ensures var next := Step([c] + rest, st, env);
            && (next.None? ==> Run([c] + rest, st, env).None?)
            && (next.Some? && next.value.0 == 1 ==> Run([c] + rest, st, env) == Run(rest, next.value.1, env))
  {
    hide Step;
    RunStep([c] + rest, st, env);
    assert ([c] + rest)[1..] == rest;
  }

  lemma RunOne(c: char, rest: string, st: State, next: State, env: Env)
    requires Step([c] + rest, st, env) == Some((1, next))
    ensures Run([c] + rest, st, env) == Run(rest, next, env)
  {
    hide Step;
    RunChar(c, rest, st, env);
  }

  lemma StepDigit(c: char, rest: string, st: State, env: Env)
    requires st.mode.Number? && IsDigit(c) && 10 * st.mode.number + Digit(c) <= 255
    ensures Step([c] + rest, st, env)
            == Some((1, st.(mode := Number(st.mode.purpose, 10 * st.mode.number + Digit(c)))))
  {
  }

  lemma {:induction false} RunDigits(digits: string, rest: string, st: State, env: Env)
    requires st.mode.Number? && AreDigits(digits) && ReadOn(st.mode.number, digits) <= 255
    ensures Run(digits + rest, st, env)
            == Run(rest, st.(mode := Number(st.mode.purpose, ReadOn(st.mode.number, digits))), env)
    decreases digits
  {
    hide Run, Step;
    if digits == "" {
      assert digits + rest == rest;
      assert st == st.(mode := Number(st.mode.purpose, st.mode.number));
    } else {
      var c, others := digits[0], digits[1..];
      var n := 10 * st.mode.number + Digit(c);
      assert digits + rest == [c] + (others + rest);
      assert ReadOn(n, others) == ReadOn(st.mode.number, digits);
      assert n <= 255;
      var next := st.(mode := Number(st.mode.purpose, n));
      StepDigit(c, others + rest, st, env);
      RunOne(c, others + rest, st, next, env);
      RunDigits(others, rest, next, env);
    }
  }

  lemma {:induction false} RunText(text: string, rest: string, st: State, env: Env)
    requires st.mode.Plain? && IsPlain(text)
    ensures Run(text + rest, st, env) == Run(rest, st.(output := st.output + text), env)
    decreases text
  {
    hide Run;
    if text == "" {
      assert text + rest == rest && st.output + text == st.output;
    } else {
      var c, others := text[0], text[1..];
      assert text + rest == [c] + (others + rest);
      var next := st.(output := st.output + [c]);
      RunOne(c, others + rest, st, next, env);
      RunText(others, rest, next, env);
      assert (st.output + [c]) + others == st.output + text;
    }
  }

  lemma RunFlags(flags: Props, rest: string, st: State, env: Env)
    requires st.mode == StartTag(NO_PROPS)
    ensures Run(PrintFlags(flags) + rest, st, env) == Run(rest, st.(mode := StartTag(flags.(offset1 := false))), env)
  {
    hide Run;
    var o := if flags.leading0 then "o" else "";
    var x := if flags.asHex then "x" else "";
    var mid := st.(mode := StartTag(NO_PROPS.(leading0 := flags.leading0)));
    assert PrintFlags(flags) + rest == o + (x + rest);
    if flags.leading0 {
      RunOne('o', x + rest, st, mid, env);
    } else {
      assert o + (x + rest) == x + rest;
    }
    if flags.asHex {
      RunOne('x', rest, mid, st.(mode := StartTag(flags.(offset1 := false))), env);
    } else {
      assert x + rest == rest;
    }
  }

  lemma RunOpen(flags: Props, rest: string, st: State, env: Env)
    requires st.mode.Plain?
    ensures Run("{" + (PrintFlags(flags) + rest), st, env) == Run(rest, st.(mode := StartTag(flags.(offset1 := false))), env)
  {
    hide Run, PrintFlags;
    RunOne('{', PrintFlags(flags) + rest, st, st.(mode := StartTag(NO_PROPS)), env);
    RunFlags(flags, rest, st.(mode := StartTag(NO_PROPS)), env);
  }

  // ---- tags that write a value ----

  lemma RunColumn(id: string, flags: Props, rest: string, st: State, env: Env)
    requires st.mode == StartTag(flags.(offset1 := false)) && IsNumber(id)
    ensures Run("&" + (id + (PrintPlus(flags.offset1) + ("}" + rest))), st, env)
            == Run(rest, Shown(st, env.columnText(NumberOf(id), flags)), env)
  {
    hide Run, ReadOn;
    var props := flags.(offset1 := false);
    var tail := PrintPlus(flags.offset1) + ("}" + rest);
    var s1 := st.(mode := Number(ShowColumn(props), 0));
    var s2 := st.(mode := Number(ShowColumn(props), NumberOf(id)));
    var s3 := st.(mode := Number(ShowColumn(flags), NumberOf(id)));
    RunOne('&', id + tail, st, s1, env);
    RunDigits(id, tail, s1, env);
    if flags.offset1 {
      assert props.(offset1 := true) == flags;
      RunOne('+', "}" + rest, s2, s3, env);
    } else {
      assert tail == "}" + rest && props == flags;
    }
    RunOne('}', rest, s3, Shown(st, env.columnText(NumberOf(id), flags)), env);
  }

  lemma RunRecord(flags: Props, rest: string, st: State, env: Env)
    requires st.mode == StartTag(flags.(offset1 := false))
    ensures Run("#" + (PrintPlus(flags.offset1) + ("}" + rest)), st, env)
            == Run(rest, Shown(st, env.recordText(flags)), env)
  {
    hide Run;
    var props := flags.(offset1 := false);
    var tail := PrintPlus(flags.offset1) + ("}" + rest);
    var s1, s2 := st.(mode := RecordTag(props)), st.(mode := RecordTag(flags));
    RunOne('#', tail, st, s1, env);
    if flags.offset1 {
      assert props.(offset1 := true) == flags;
      RunOne('+', "}" + rest, s1, s2, env);
    } else {
      assert tail == "}" + rest && props == flags;
    }
    RunOne('}', rest, s2, Shown(st, env.recordText(flags)), env);
  }

  lemma RunParent(id: string, flags: Props, rest: string, st: State, env: Env)
    requires st.mode == StartTag(flags) && IsNumber(id)
    ensures Run("^" + (id + ("}" + rest)), st, env) == Run(rest, Shown(st, env.parentText(NumberOf(id), flags)), env)
  {
    hide Run, ReadOn;
    var s1 := st.(mode := Number(ShowParent(flags), 0));
    var s2 := st.(mode := Number(ShowParent(flags), NumberOf(id)));
    RunOne('^', id + ("}" + rest), st, s1, env);
    RunDigits(id, "}" + rest, s1, env);
    RunOne('}', rest, s2, Shown(st, env.parentText(NumberOf(id), flags)), env);
  }

  lemma RunCount(flags: Props, rest: string, st: State, env: Env)
    requires st.mode == StartTag(flags)
    ensures Run("*" + ("}" + rest), st, env) == Run(rest, Shown(st, env.countText(flags)), env)
  {
    hide Run;
    var s1 := st.(mode := CountTag(flags));
    RunOne('*', "}" + rest, st, s1, env);
    RunOne('}', rest, s1, Shown(st, env.countText(flags)), env);
  }

  lemma RunValue(v: Value, rest: string, st: State, env: Env)
    requires st.mode == StartTag(v.flags.(offset1 := false)) && IsValue(v)
    ensures Run(PrintValue(v) + rest, st, env) == Run(rest, Shown(st, MeaningOfPart(Tag(v), env)), env)
  {
    hide Run, NumberOf, IsNumber, Shown, PrintPlus;
    var flags, plus := v.flags, PrintPlus(v.flags.offset1);
    match v
    case Column(_, id) =>
      Rebracketed("&", id, plus, rest);
      RunColumn(id, flags, rest, st, env);
    case RecordId(_) =>
      Rebracketed("#", "", plus, rest);
      RunRecord(flags, rest, st, env);
    case NumRecords(_) =>
      assert flags.(offset1 := false) == flags;
      assert "*}" == "*" + "}";
      Rebracketed("*", "", "", rest);
      RunCount(flags, rest, st, env);
    case Parent(_, id) =>
      assert flags.(offset1 := false) == flags;
      Rebracketed("^", id, "", rest);
      RunParent(id, flags, rest, st, env);
  }

  lemma Rebracketed(first: string, id: string, plus: string, rest: string)
    ensures (first + (id + (plus + "}"))) + rest == first + (id + (plus + ("}" + rest)))
    ensures (first + (plus + "}")) + rest == first + (plus + ("}" + rest))
    ensures (first + (id + "}")) + rest == first + (id + ("}" + rest))
    ensures (first + "}") + rest == first + ("}" + rest)
  {
  }

  lemma RunPart(p: Part, rest: string, st: State, env: Env)
    requires st.mode.Plain? && IsPart(p)
    ensures Run(PrintPart(p) + rest, st, env) == Run(rest, st.(output := st.output + MeaningOfPart(p, env)), env)
  {
    hide Run, PrintValue, PrintFlags, IsValue;
    if p.Text? {
      RunText(p.text, rest, st, env);
    } else {
      hide MeaningOfPart;
      var v := p.value;
      assert PrintPart(p) + rest == "{" + (PrintFlags(v.flags) + (PrintValue(v) + rest));
      RunOpen(v.flags, PrintValue(v) + rest, st, env);
      RunValue(v, rest, st.(mode := StartTag(v.flags.(offset1 := false))), env);
    }
  }

  lemma {:induction false} RunParts(parts: seq<Part>, rest: string, st: State, env: Env)
    requires st.mode.Plain? && AreParts(parts)
    ensures Run(PrintParts(parts) + rest, st, env)
            == Run(rest, st.(output := st.output + MeaningOfParts(parts, env)), env)
    decreases parts
  {
    hide Run, PrintPart, MeaningOfPart, IsPart;
    if parts == [] {
      assert PrintParts(parts) + rest == rest && st.output + "" == st.output;
    } else {
      var p, others := parts[0], parts[1..];
      assert PrintParts(parts) + rest == PrintPart(p) + (PrintParts(others) + rest);
      RunPart(p, PrintParts(others) + rest, st, env);
      RunParts(others, rest, st.(output := st.output + MeaningOfPart(p, env)), env);
      assert (st.output + MeaningOfPart(p, env)) + MeaningOfParts(others, env)
          == st.output + MeaningOfParts(parts, env);
    }
  }

  // ---- tests ----

  lemma RunRhs(c: Comparison, rest: string, left: uint16, st: State, env: Env)
    requires st.mode == RightHandSide(left, Some(c.op)) && IsRhs(c.rhs)
    ensures Run(PrintRhs(c.rhs, Dollar) + rest, st, env)
            == Run(rest, Decided(st, Holds(left, c.op, RhsValue(c.rhs, env))), env)
  {
    hide Run, ReadOn, Holds;
    var op := Some(c.op);
    var done := Decided(st, Holds(left, c.op, RhsValue(c.rhs, env)));
    match c.rhs
    case Literal(digits) =>
      var s1 := st.(mode := Number(RightLiteral(left, op), 0));
      assert PrintRhs(c.rhs, Dollar) + rest == ['$'] + (digits + ("}" + rest));
      RunOne('$', digits + ("}" + rest), st, s1, env);
      RunDigits(digits, "}" + rest, s1, env);
      RunOne('}', rest, st.(mode := Number(RightLiteral(left, op), NumberOf(digits))), done, env);
    case OtherColumn(id) =>
      var s1 := st.(mode := Number(RightColumn(left, op), 0));
      assert PrintRhs(c.rhs, Dollar) + rest == ['&'] + (id + ("}" + rest));
      RunOne('&', id + ("}" + rest), st, s1, env);
      RunDigits(id, "}" + rest, s1, env);
      RunOne('}', rest, st.(mode := Number(RightColumn(left, op), NumberOf(id))), done, env);
    case OwnRecord(plus) =>
      var s1, s2 := st.(mode := RightRecord(left, op, false)), st.(mode := RightRecord(left, op, plus));
      var tail := PrintPlus(plus) + ("}" + rest);
      assert PrintRhs(c.rhs, Dollar) + rest == ['#'] + tail;
      RunOne('#', tail, st, s1, env);
      if plus {
        RunOne('+', "}" + rest, s1, s2, env);
      } else {
        assert tail == "}" + rest;
      }
      RunOne('}', rest, s2, done, env);
  }

  lemma StepOperator(c: Comparison, rest: string, st: State, number: uint8, env: Env)
    requires st.mode == Number(LeftColumn, number) && IsRhs(c.rhs)
    ensures Step(PrintOperator(c.op) + (PrintRhs(c.rhs, Dollar) + rest), st, env)
            == Some((|PrintOperator(c.op)|, st.(mode := RightHandSide(env.column(number), Some(c.op)))))
  {
    var tail := PrintRhs(c.rhs, Dollar) + rest;
    var s := PrintOperator(c.op) + tail;
    assert tail[0] == PrintRhs(c.rhs, Dollar)[0];
    assert s[0] == PrintOperator(c.op)[0];
    assert |PrintOperator(c.op)| == OperatorLength(c.op);
    assert OperatorAt(s) == Some(c.op) by {
      if |PrintOperator(c.op)| == 1 {
        assert s[1] == tail[0];
      } else {
        assert s[1] == PrintOperator(c.op)[1];
      }
    }
  }

  lemma RunHead(item: Item, rest: string, st: State, env: Env)
    requires st.mode.Plain? && item.If? && item.test.Some? && IsItem(item)
    ensures Run(PrintHead(item, Dollar) + rest, st, env) == Run(rest, Decided(st, TestHolds(item, env)), env)
  {
    hide Run, ReadOn, Holds, PrintRhs, PrintOperator, RhsValue, IsRhs, AreParts;
    var c, flags, id := item.test.value, item.flags, item.id;
    var test := PrintOperator(c.op) + (PrintRhs(c.rhs, Dollar) + rest);
    assert PrintHead(item, Dollar) + rest == "{" + (PrintFlags(flags) + ("?&" + (id + test)));
    RunOpen(flags, "?&" + (id + test), st, env);
    assert flags.(offset1 := false) == flags;
    var s1, s2 := st.(mode := StartTag(flags)), st.(mode := Number(LeftColumn, 0));
    var tag := "?&" + (id + test);
    assert tag[0] == '?' && tag[1] == '&' && tag[2..] == id + test;
    RunStep(tag, s1, env);
    RunDigits(id, test, s2, env);
    var s3 := st.(mode := Number(LeftColumn, NumberOf(id)));
    var left := env.column(NumberOf(id));
    StepOperator(c, rest, s3, NumberOf(id), env);
    OperatorIsPrinted(c.op);
    RunStep(test, s3, env);
    assert test[|PrintOperator(c.op)|..] == PrintRhs(c.rhs, Dollar) + rest;
    RunRhs(c, rest, left, st.(mode := RightHandSide(left, Some(c.op))), env);
  }

  // ---- skipping ----

  predicate IsSkipping(st: State) {
    st.mode.SkipToElse? || st.mode.SkipToEnd?
  }

  /** Neither "{:}" nor "{;}" begins at any character of s, whatever follows s. */
  predicate NoJumpIn(s: string) {
    forall i :: 0 <= i < |s| && s[i] == '{' ==> i + 1 < |s| && s[i + 1] != ':' && s[i + 1] != ';'
  }

  lemma {:induction false} SkipOver(s: string, rest: string, st: State, env: Env)
    requires IsSkipping(st) && NoJumpIn(s)
    ensures Run(s + rest, st, env) == Run(rest, st, env)
    decreases s
  {
    hide Run;
    if s == "" {
      assert s + rest == rest;
    } else {
      assert s + rest == [s[0]] + (s[1..] + rest);
      RunOne(s[0], s[1..] + rest, st, st, env);
      SkipOver(s[1..], rest, st, env);
    }
  }

  lemma NoJumpInBoth(a: string, b: string)
    requires NoJumpIn(a) && NoJumpIn(b)
    ensures NoJumpIn(a + b)
  {
  }

  lemma NoJumpInPart(p: Part)
    requires IsPart(p)
    ensures NoJumpIn(PrintPart(p))
  {
    if p.Tag? {
      var v := p.value;
      var body := PrintFlags(v.flags) + PrintValue(v);
      assert body[0] != ':' && body[0] != ';';
      assert forall i :: 0 <= i < |body| ==> body[i] != '{';
    }
  }

  lemma {:induction false} NoJumpInParts(parts: seq<Part>)
    requires AreParts(parts)
    ensures NoJumpIn(PrintParts(parts))
    decreases parts
  {
    hide NoJumpIn, PrintPart, IsPart;
    if parts == [] {
      NoJumpInNothing();
    } else {
      NoJumpInPart(parts[0]);
      NoJumpInParts(parts[1..]);
      NoJumpInBoth(PrintPart(parts[0]), PrintParts(parts[1..]));
    }
  }

  lemma NoJumpInNothing()
    ensures NoJumpIn("")
  {
  }

  lemma NoJumpInHead(item: Item, d: Dialect)
    requires item.If? && IsItem(item)
    ensures NoJumpIn(PrintHead(item, d))
  {
    hide AreParts;
    var flags, test := PrintFlags(item.flags), PrintTest(item.test, d);
    var body := flags + ("?&" + (item.id + test));
    assert body[0] != ':' && body[0] != ';';
    NoBraceInTest(item.test, d);
    assert forall i :: 0 <= i < |flags| ==> flags[i] != '{';
    assert forall i :: 0 <= i < |body| ==> body[i] != '{';
  }

  lemma NoBraceInTest(test: Option<Comparison>, d: Dialect)
    requires test.Some? ==> IsRhs(test.value.rhs)
    ensures forall i :: 0 <= i < |PrintTest(test, d)| ==> PrintTest(test, d)[i] != '{'
  {
  }

  /** A skip ends at its tag. */
  lemma SkipEnds(rest: string, st: State, env: Env)
    ensures st.mode.SkipToElse? ==> Run("{:}" + rest, st, env) == Run(rest, st.(mode := Plain), env)
    ensures st.mode.SkipToEnd? ==> Run("{;}" + rest, st, env) == Run(rest, st.(mode := Plain), env)
    ensures st.mode.SkipToElse? ==> Run("{;}" + rest, st, env) == Run(rest, st, env)
  {
    hide Run;
    var e, f := "{:}" + rest, "{;}" + rest;
    assert e[0] == '{' && e[1] == ':' && e[2] == '}' && e[3..] == rest;
    assert f[0] == '{' && f[1] == ';' && f[2] == '}' && f[3..] == rest;
    RunStep(e, st, env);
    RunStep(f, st, env);
    if st.mode.SkipToElse? {
      assert f[1..] == [';'] + (['}'] + rest);
      RunOne(';', ['}'] + rest, st, st, env);
      RunOne('}', rest, st, st, env);
    }
  }

  // ---- else and end tags in text that is not skipped ----

  lemma RunElse(rest: string, st: State, env: Env)
    requires st.mode.Plain?
    ensures Run("{:}" + rest, st, env) == Run(rest, st.(mode := if st.condition then SkipToEnd else Plain), env)
  {
    hide Run;
    assert "{:}" + rest == ['{'] + ([':'] + (['}'] + rest));
    RunOne('{', [':'] + (['}'] + rest), st, st.(mode := StartTag(NO_PROPS)), env);
    RunOne(':', ['}'] + rest, st.(mode := StartTag(NO_PROPS)), st.(mode := ElseTag), env);
    RunOne('}', rest, st.(mode := ElseTag), st.(mode := if st.condition then SkipToEnd else Plain), env);
  }

  lemma RunEnd(rest: string, st: State, env: Env)
    requires st.mode.Plain?
    ensures Run("{;}" + rest, st, env) == Run(rest, st, env)
  {
    hide Run;
    assert "{;}" + rest == ['{'] + ([';'] + (['}'] + rest));
    RunOne('{', [';'] + (['}'] + rest), st, st.(mode := StartTag(NO_PROPS)), env);
    RunOne(';', ['}'] + rest, st.(mode := StartTag(NO_PROPS)), st.(mode := EndTag), env);
    RunOne('}', rest, st.(mode := EndTag), st, env);
  }

  // ---- items and templates ----

  /** The else branch, its tag and the end tag after a condition that failed. */
  lemma RunTakenElse(els: seq<Part>, rest: string, st: State, env: Env)
    requires st.mode.Plain? && AreParts(els)
    ensures Run(PrintParts(els) + ("{;}" + rest), st, env)
            == Run(rest, st.(output := st.output + MeaningOfParts(els, env)), env)
  {
    hide *;
    RunParts(els, "{;}" + rest, st, env);
    RunEnd(rest, st.(output := st.output + MeaningOfParts(els, env)), env);
  }

  /** A conditional that is not derailed. */
  lemma RunIf(item: Item, rest: string, st: State, env: Env)
    requires st.mode.Plain? && item.If? && item.test.Some? && IsItem(item)
    requires LacksElse(item) ==> TestHolds(item, env)
    ensures Run(PrintItem(item, Dollar) + rest, st, env)
            == Run(rest, st.(condition := TestHolds(item, env), output := st.output + MeaningOfItem(item, env)), env)
  {
    hide Run, PrintHead, PrintParts, TestHolds, MeaningOfParts, AreParts, IsRhs;
    var head, thn := PrintHead(item, Dollar), PrintParts(item.thn);
    var tail := PrintElse(item.els) + ("{;}" + rest);
    assert PrintItem(item, Dollar) + rest == head + (thn + tail);
    RunHead(item, thn + tail, st, env);
    if TestHolds(item, env) {
      var s1 := Decided(st, true);
      RunParts(item.thn, tail, s1, env);
      var s2 := s1.(output := s1.output + MeaningOfParts(item.thn, env));
      if item.els.Some? {
        var els := PrintParts(item.els.value);
        assert tail == "{:}" + (els + ("{;}" + rest));
        RunElse(els + ("{;}" + rest), s2, env);
        NoJumpInParts(item.els.value);
        SkipOver(els, "{;}" + rest, s2.(mode := SkipToEnd), env);
        SkipEnds(rest, s2.(mode := SkipToEnd), env);
      } else {
        assert tail == "{;}" + rest;
        RunEnd(rest, s2, env);
      }
    } else {
      var s1, els := Decided(st, false), PrintParts(item.els.value);
      NoJumpInParts(item.thn);
      SkipOver(thn, tail, s1, env);
      assert tail == "{:}" + (els + ("{;}" + rest));
      SkipEnds(els + ("{;}" + rest), s1, env);
      RunTakenElse(item.els.value, rest, s1.(mode := Plain), env);
    }
  }

  /** Skipping to the next else runs over a whole item when that has none. */
  lemma SkipItem(item: Item, rest: string, st: State, env: Env)
    requires st.mode.SkipToElse? && IsItem(item) && !HasElse(item)
    ensures Run(PrintItem(item, Dollar) + rest, st, env) == Run(rest, st, env)
  {
    hide Run, PrintHead, PrintParts, PrintPart, IsPart, AreParts, NoJumpIn, NumberOf, IsRhs;
    if item.Single? {
      NoJumpInPart(item.part);
      SkipOver(PrintPart(item.part), rest, st, env);
    } else {
      var head, thn := PrintHead(item, Dollar), PrintParts(item.thn);
      assert PrintItem(item, Dollar) + rest == (head + thn) + ("{;}" + rest);
      NoJumpInHead(item, Dollar);
      NoJumpInParts(item.thn);
      NoJumpInBoth(head, thn);
      SkipOver(head + thn, "{;}" + rest, st, env);
      SkipEnds(rest, st, env);
    }
  }

  /** Skipping to the next else lands in the else branch of an item that has one. */
  lemma SkipIntoElse(item: Item, rest: string, st: State, env: Env)
    requires st.mode.SkipToElse? && IsItem(item) && HasElse(item)
    ensures Run(PrintItem(item, Dollar) + rest, st, env)
            == Run(rest, st.(mode := Plain, output := st.output + MeaningOfParts(item.els.value, env)), env)
  {
    hide Run, PrintHead, PrintParts, AreParts, NoJumpIn, NumberOf, IsRhs, MeaningOfParts;
    var head, thn, els := PrintHead(item, Dollar), PrintParts(item.thn), PrintParts(item.els.value);
    assert PrintItem(item, Dollar) + rest == (head + thn) + ("{:}" + (els + ("{;}" + rest)));
    NoJumpInHead(item, Dollar);
    NoJumpInParts(item.thn);
    NoJumpInBoth(head, thn);
    SkipOver(head + thn, "{:}" + (els + ("{;}" + rest)), st, env);
    SkipEnds(els + ("{;}" + rest), st, env);
    RunTakenElse(item.els.value, rest, st.(mode := Plain), env);
  }

  /** A test that fails where there is no else leaves the interpreter skipping. */
  lemma RunDerailed(item: Item, rest: string, st: State, env: Env)
    requires st.mode.Plain? && LacksElse(item) && item.test.Some? && IsItem(item) && !TestHolds(item, env)
    ensures Run(PrintItem(item, Dollar) + rest, st, env) == Run(rest, Decided(st, false), env)
  {
    hide Run, PrintHead, PrintParts, TestHolds, AreParts, IsRhs;
    var head, thn := PrintHead(item, Dollar), PrintParts(item.thn);
    assert PrintItem(item, Dollar) + rest == head + (thn + ("{;}" + rest));
    RunHead(item, thn + ("{;}" + rest), st, env);
    NoJumpInParts(item.thn);
    SkipOver(thn, "{;}" + rest, Decided(st, false), env);
    SkipEnds(rest, Decided(st, false), env);
  }

  lemma Appended(a: string, b: string, c: string)
    ensures (a + b) + c == a + (b + c)
    ensures a + "" == a && "" + a == a
  {
  }

  lemma SharedRest(t: Template)
    requires IsShared(t) && t != []
    ensures IsShared(t[1..]) && IsItem(t[0]) && (t[0].If? ==> t[0].test.Some?)
    ensures HasElse(t[0]) ==> AreParts(t[0].els.value)
  {
    hide AreParts, IsPart, IsRhs, IsNumber;
    assert forall i :: 0 <= i < |t| - 1 ==> t[1..][i] == t[i + 1];
  }

  lemma {:induction false} RunTemplate(t: Template, k: nat, st: State, env: Env)
    requires IsShared(t) && (st.mode.Plain? || st.mode.SkipToElse?)
    ensures var last := Run(Print(t, Dollar), st, env);
            last.Some?
            && last.value.output
               == st.output + Joined(if st.mode.Plain? then ScannedPieces(t, k, env) else SkippedPieces(t, k, env))
    decreases t
  {
    hide Run, PrintItem, MeaningOfItem, MeaningOfParts, TestHolds, IsItem, IsTemplate;
    if t == [] {
      Appended(st.output, "", "");
      RunStep("", st, env);
    } else {
      var item, rest := t[0], t[1..];
      var more := Print(rest, Dollar);
      SharedRest(t);
      assert Print(t, Dollar) == PrintItem(item, Dollar) + more;
      if st.mode.Plain? {
        if LacksElse(item) && !TestHolds(item, env) {
          RunDerailed(item, more, st, env);
          RunTemplate(rest, k + 1, Decided(st, false), env);
          JoinedCons((k, ""), SkippedPieces(rest, k + 1, env));
          Appended(Joined(SkippedPieces(rest, k + 1, env)), "", "");
        } else {
          var m := MeaningOfItem(item, env);
          var next := st.(output := st.output + m);
          if item.If? {
            RunIf(item, more, st, env);
            next := next.(condition := TestHolds(item, env));
          } else {
            SingleItem(item, env);
            RunPart(item.part, more, st, env);
          }
          RunTemplate(rest, k + 1, next, env);
          JoinedCons((k, m), ScannedPieces(rest, k + 1, env));
          Appended(st.output, m, Joined(ScannedPieces(rest, k + 1, env)));
        }
      } else if HasElse(item) {
        var m := MeaningOfParts(item.els.value, env);
        SkipIntoElse(item, more, st, env);
        RunTemplate(rest, k + 1, st.(mode := Plain, output := st.output + m), env);
        JoinedCons((k, m), ScannedPieces(rest, k + 1, env));
        Appended(st.output, m, Joined(ScannedPieces(rest, k + 1, env)));
      } else {
        SkipItem(item, more, st, env);
        RunTemplate(rest, k + 1, st, env);
      }
    }
  }

  lemma SingleItem(item: Item, env: Env)
    requires IsItem(item) && item.Single?
    ensures IsPart(item.part) && MeaningOfItem(item, env) == MeaningOfPart(item.part, env)
    ensures PrintItem(item, Dollar) == PrintPart(item.part)
  {
  }

  /** What the interpreter writes for every template, whatever its tests come to. */
  lemma InterpreterWritesPieces(t: Template, env: Env)
    requires IsShared(t) && |Print(t, Dollar)| <= 255
    ensures Interpret(Print(t, Dollar), env) == Some(Joined(ScannedPieces(t, 0, env)))
  {
    hide Run, Print, ScannedPieces, IsShared;
    SharedIsTemplate(t);
    RunTemplate(t, 0, START, env);
    Appended(Joined(ScannedPieces(t, 0, env)), "", "");
  }

  /** An orderly template is written as it means. */
  lemma InterpreterWritesMeaning(t: Template, env: Env)
    requires IsShared(t) && IsOrderly(t, env) && |Print(t, Dollar)| <= 255
    ensures Interpret(Print(t, Dollar), env) == Some(Meaning(t, env))
  {
    hide *;
    InterpreterWritesPieces(t, env);
    SharedIsTemplate(t);
    ScannedIffOrderly(t, 0, env);
    JoinedPieces(t, 0, env);
  }

  /** For every record: the text is what the template means exactly when, behind the first conditional
      without else whose test fails, the text from the next else branch on is what all the items there
      mean. */
  lemma InterpreterWritesMeaningIff(t: Template, env: Env)
    requires IsShared(t) && |Print(t, Dollar)| <= 255
    ensures IsTemplate(t)
    ensures Interpret(Print(t, Dollar), env) == Some(Meaning(t, env)) <==> RestIsWritten(t, 0, env)
  {
    hide *;
    SharedIsTemplate(t);
    InterpreterWritesPieces(t, env);
    TextIffBehind(t, 0, env);
  }

  /** Where no else follows there, exactly when the items there mean nothing. */
  lemma LostUnlessEmpty(t: Template, env: Env)
    requires IsShared(t) && |Print(t, Dollar)| <= 255 && IsTemplate(t) && NoElse(BehindFailing(t, env))
    ensures Interpret(Print(t, Dollar), env) == Some(Meaning(t, env)) <==> Meaning(BehindFailing(t, env), env) == ""
  {
    hide *;
    InterpreterWritesMeaningIff(t, env);
    NothingElseWritten(t, 0, env);
  }

  lemma SharedIsTemplate(t: Template)
    requires IsShared(t)
    ensures IsTemplate(t)
  {
  }

  const NO_ELSE: Template :=
    [If(NO_PROPS, "0", Some(Comparison(Equal, Literal("1"))), [Text("a")], None), Single(Text("b"))]

  lemma NoElseIsShared()
    ensures IsShared(NO_ELSE) && NO_ELSE[1..] == [Single(Text("b"))]
  {
    var t, b := NO_ELSE, [Single(Text("b"))];
    assert t[1..] == b;
    assert NumberOf("0") == ReadOn(0, "") && NumberOf("1") == ReadOn(1, "");
  }

  lemma NoElseIsShort()
    ensures |Print(NO_ELSE, Dollar)| <= 255
  {
    var t, a, b := NO_ELSE, [Text("a")], [Single(Text("b"))];
    assert t[1..] == b && b[1..] == [] && a[1..] == [];
    assert |PrintParts(a)| == |PrintPart(a[0])| + |PrintParts(a[1..])| == 1;
    assert |PrintTest(t[0].test, Dollar)| <= 6;
    assert |PrintHead(t[0], Dollar)| <= 20;
    hide PrintHead, PrintParts;
    assert |Print(b, Dollar)| == 1 + |Print(b[1..], Dollar)|;
    assert |Print(t, Dollar)| == |PrintItem(t[0], Dollar)| + |Print(b, Dollar)|;
  }

  lemma NoElseMeans(env: Env)
    requires IsTemplate(NO_ELSE) && NO_ELSE[1..] == [Single(Text("b"))] && env.column(0) == 0
    ensures !TestHolds(NO_ELSE[0], env) && Meaning(NO_ELSE, env) == "b"
  {
    var t, b := NO_ELSE, [Single(Text("b"))];
    assert b[1..] == [];
    assert NumberOf("0") == ReadOn(0, "") && NumberOf("1") == ReadOn(1, "");
    assert Meaning(b, env) == "b" + Meaning(b[1..], env);
    assert Meaning(t, env) == MeaningOfItem(t[0], env) + Meaning(b, env);
  }

  /** "{?&0==$1}a{;}b": when the test fails, the text after the conditional is lost as well. */
  lemma LostText(env: Env)
    requires env.column(0) == 0
    ensures |Print(NO_ELSE, Dollar)| <= 255
    ensures Interpret(Print(NO_ELSE, Dollar), env) == Some("") && IsTemplate(NO_ELSE) && Meaning(NO_ELSE, env) == "b"
  {
    NoElseIsShort();
    hide Interpret, Meaning, Print, TestHolds, MeaningOfItem;
    NoElseIsShared();
    NoElseMeans(env);
    var t, b := NO_ELSE, [Single(Text("b"))];
    InterpreterWritesPieces(t, env);
    assert b[1..] == [];
    assert SkippedPieces(b, 1, env) == SkippedPieces(b[1..], 2, env);
    assert ScannedPieces(t, 0, env) == [(0, "")];
    JoinedCons((0, ""), []);
    assert [(0, "")] + [] == [(0, "")];
  }
}
