/** What BDB_writeRecordWithFormat writes, told from the characters of the format. */
module FormatLaws {
  import opened MachineInts
  import opened Wrappers
  import opened TemplateSyntax
  import opened FormatInterpreter
  import opened InterpreterRuns
  import opened WriteColumns

  // ---- comparisons ----

  predicate IsDifference(d: nat, less: nat, more: nat) {
    d > 0 && less + d == more
  }

  /** The six comparisons are those of the numbers. */
  lemma ComparisonLaws(left: uint16, right: uint16)
    ensures Holds(left, Less, right) <==> exists d :: IsDifference(d, left, right)
    ensures Holds(left, Greater, right) <==> Holds(right, Less, left)
    ensures Holds(left, Equal, right) <==> left - right == 0
    ensures Holds(left, LessOrEqual, right) <==> !Holds(left, Greater, right)
    ensures Holds(left, GreaterOrEqual, right) <==> !Holds(left, Less, right)
    ensures Holds(left, NotEqual, right) <==> !Holds(left, Equal, right)
    ensures Holds(left, Less, right) || Holds(left, Equal, right) || Holds(left, Greater, right)
    ensures !(Holds(left, Less, right) && Holds(left, Equal, right))
    ensures !(Holds(left, Less, right) && Holds(left, Greater, right))
    ensures !(Holds(left, Equal, right) && Holds(left, Greater, right))
  {
    if left < right {
      var d: nat := right - left;
      assert IsDifference(d, left, right);
    }
  }

  // ---- numbers ----

  lemma {:induction false} ReadAppendedDigit(n: nat, digits: string, c: char)
    requires AreDigits(digits) && IsDigit(c)
    ensures ReadOn(n, digits + [c]) == 10 * ReadOn(n, digits) + (c as int - '0' as int)
    decreases digits
  {
    if digits == "" {
      assert digits + [c] == [c] && [c][1..] == "";
      assert ReadOn(n, [c]) == ReadOn(10 * n + Digit(c), "");
    } else {
      assert (digits + [c])[1..] == digits[1..] + [c];
      ReadAppendedDigit(10 * n + Digit(digits[0]), digits[1..], c);
    }
  }

  /** Digits spell a number in decimal. */
  lemma NumberLaw(digits: string, c: char)
    requires AreDigits(digits) && '0' <= c <= '9'
    ensures NumberOf("") == 0 && NumberOf(digits + [c]) == 10 * NumberOf(digits) + (c as int - '0' as int)
  {
    ReadAppendedDigit(0, digits, c);
  }

  /** Every number is spelled by its numeral. */
  lemma {:induction false} NumeralIsNumber(n: nat)
    ensures AreDigits(Numeral(n, 10)) && NumberOf(Numeral(n, 10)) == n
    decreases n
  {
    hide Rest, LastDigit;
    if n < 10 {
      DigitLaw(n, "");
    } else {
      var q, d := Rest(n, 10), LastDigit(n, 10);
      NumeralIsNumber(q);
      DigitLaw(d, Numeral(q, 10));
      DividedByTen(n);
    }
  }

  lemma DigitLaw(d: nat, digits: string)
    requires d < 10 && AreDigits(digits)
    ensures AreDigits(digits + [DigitChar(d)]) && NumberOf(digits + [DigitChar(d)]) == 10 * NumberOf(digits) + d
    ensures "" + [DigitChar(d)] == [DigitChar(d)] && NumberOf("") == 0
  {
    hide ReadOn;
    NumberLaw(digits, DigitChar(d));
  }

  lemma DividedByTen(n: nat)
    ensures n == 10 * Rest(n, 10) + LastDigit(n, 10)
  {
  }

  // ---- tags ----

  lemma RunBefore(before: string, rest: string, env: Env)
    requires IsPlain(before)
    ensures Run(before + rest, START, env) == Run(rest, START.(output := before), env)
  {
    hide Run;
    RunText(before, rest, START, env);
    assert "" + before == before;
  }

  lemma RunBehind(after: string, st: State, env: Env)
    requires st.mode.Plain? && IsPlain(after)
    ensures Run(after, st, env).Some? && Run(after, st, env).value.output == st.output + after
  {
    hide Run;
    assert after + "" == after;
    RunText(after, "", st, env);
    RunStep("", st.(output := st.output + after), env);
  }

  /** Text outside tags is written as it is. */
  lemma PlainText(text: string, env: Env)
    requires IsPlain(text) && |text| <= 255
    ensures Interpret(text, env) == Some(text)
  {
    hide Run;
    RunBehind(text, START, env);
    assert "" + text == text;
  }

  /** A tag is replaced by what it stands for, the text around it stays. */
  lemma TagAround(before: string, v: Value, after: string, env: Env)
    requires IsPlain(before) && IsPlain(after) && IsValue(v) && |before + PrintPart(Tag(v)) + after| <= 255
    ensures Interpret(before + PrintPart(Tag(v)) + after, env) == Some(before + MeaningOfPart(Tag(v), env) + after)
  {
    TagIsPart(v);
    hide *;
    var m := MeaningOfPart(Tag(v), env);
    InterpretIsRun(before + PrintPart(Tag(v)) + after, env);
    Appended(before, PrintPart(Tag(v)), after);
    RunBefore(before, PrintPart(Tag(v)) + after, env);
    RunPart(Tag(v), after, START.(output := before), env);
    RunBehind(after, START.(output := before).(output := before + m), env);
  }

  lemma TagIsPart(v: Value)
    requires IsValue(v)
    ensures IsPart(Tag(v))
  {
  }

  lemma InterpretIsRun(format: string, env: Env)
    requires |format| <= 255
    ensures Run(format, START, env).Some? ==> Interpret(format, env) == Some(Run(format, START, env).value.output)
  {
  }

  function Mark(c: string, present: bool): string {
    if present then c else ""
  }

  lemma Bracketed(a: string, b: string, c: string, d: string, e: string, f: string, g: string)
    ensures a + ((b + c) + (d + (e + (f + g)))) == a + b + c + d + e + f + g
    ensures a + ((b + c) + (d + (e + f))) == a + b + c + d + e + f
    ensures a + ((b + c) + d) == a + b + c + d
  {
    assert a + b + c + d + e + f + g == a + (b + (c + (d + (e + (f + g)))));
  }

  lemma TagsAreSpelled(id: string, o: bool, x: bool, plus: bool)
    ensures PrintPart(Tag(Column(Props(o, plus, x), id)))
         == "{" + Mark("o", o) + Mark("x", x) + "&" + id + Mark("+", plus) + "}"
    ensures PrintPart(Tag(RecordId(Props(o, plus, x)))) == "{" + Mark("o", o) + Mark("x", x) + "#" + Mark("+", plus) + "}"
    ensures PrintPart(Tag(NumRecords(Props(o, false, x)))) == "{" + Mark("o", o) + Mark("x", x) + "*}"
    ensures PrintPart(Tag(Parent(Props(o, false, x), id))) == "{" + Mark("o", o) + Mark("x", x) + "^" + id + "}"
  {
    Bracketed("{", Mark("o", o), Mark("x", x), "&", id, Mark("+", plus), "}");
    Bracketed("{", Mark("o", o), Mark("x", x), "#", Mark("+", plus), "}", "");
    Bracketed("{", Mark("o", o), Mark("x", x), "*}", "", "", "");
    Bracketed("{", Mark("o", o), Mark("x", x), "^", id, "}", "");
  }

  /** The tags that show a value: column, record number, number of records and parent. The o, x and + of a
      tag are passed on to the rendering. */
  lemma TagLaws(before: string, id: string, o: bool, x: bool, plus: bool, after: string, env: Env)
    requires IsPlain(before) && IsPlain(after) && IsNumber(id) && |before| + |id| + |after| <= 249
    ensures Interpret(before + ("{" + Mark("o", o) + Mark("x", x) + "&" + id + Mark("+", plus) + "}") + after, env)
         == Some(before + env.columnText(NumberOf(id), Props(o, plus, x)) + after)
    ensures Interpret(before + ("{" + Mark("o", o) + Mark("x", x) + "#" + Mark("+", plus) + "}") + after, env)
         == Some(before + env.recordText(Props(o, plus, x)) + after)
    ensures Interpret(before + ("{" + Mark("o", o) + Mark("x", x) + "*}") + after, env)
         == Some(before + env.countText(Props(o, false, x)) + after)
    ensures Interpret(before + ("{" + Mark("o", o) + Mark("x", x) + "^" + id + "}") + after, env)
         == Some(before + env.parentText(NumberOf(id), Props(o, false, x)) + after)
  {
    var plain, shown := Props(o, false, x), Props(o, plus, x);
    TagsAreSpelled(id, o, x, plus);
    hide Interpret, IsPlain, PrintPart, NumberOf;
    TagAround(before, Column(shown, id), after, env);
    TagAround(before, RecordId(shown), after, env);
    TagAround(before, NumRecords(plain), after, env);
    TagAround(before, Parent(plain, id), after, env);
  }

  // ---- conditionals ----

  /** A conditional with an else, whose branches are plain text. */
  function Choice(op: string, id: string, right: string, a: string, b: string): string {
    "{?&" + id + op + right + "}" + a + "{:}" + b + "{;}"
  }

  function TextParts(text: string): seq<Part> {
    if text == "" then [] else [Text(text)]
  }

  lemma TextIsParts(text: string)
    requires IsPlain(text)
    ensures AreParts(TextParts(text)) && PrintParts(TextParts(text)) == text
  {
    if text != "" {
      assert [Text(text)][1..] == [];
      assert text + "" == text;
    }
  }

  lemma TextMeansItself(text: string, env: Env)
    requires IsPlain(text) && AreParts(TextParts(text))
    ensures MeaningOfParts(TextParts(text), env) == text
  {
    if text != "" {
      assert [Text(text)][1..] == [];
      assert text + "" == text;
    }
  }

  lemma ChoiceIsSpelled(id: string, op: string, right: string, a: string, b: string)
    ensures "{" + ("" + ("?&" + (id + (op + (right + "}"))))) + (a + ("{:}" + b + "{;}")) == Choice(op, id, right, a, b)
  {
    assert "{" + ("" + ("?&" + (id + (op + (right + "}"))))) == "{?&" + id + op + right + "}";
    assert Choice(op, id, right, a, b) == ("{?&" + id + op + right + "}") + (a + ("{:}" + b + "{;}"));
  }

  function ChoiceItem(op: Operator, id: string, rhs: Rhs, a: string, b: string): (item: Item)
    ensures item.If? && item.test.Some?
  {
    If(NO_PROPS, id, Some(Comparison(op, rhs)), TextParts(a), Some(TextParts(b)))
  }

  lemma ChoiceIsItem(op: Operator, id: string, rhs: Rhs, a: string, b: string, right: string, d: Dialect)
    requires IsNumber(id) && IsRhs(rhs) && IsPlain(a) && IsPlain(b) && PrintRhs(rhs, d) == right + "}"
    ensures var item := ChoiceItem(op, id, rhs, a, b);
            IsItem(item) && PrintItem(item, d) == Choice(PrintOperator(op), id, right, a, b)
  {
    TextIsParts(a);
    TextIsParts(b);
    ChoiceIsSpelled(id, PrintOperator(op), right, a, b);
    hide PrintOperator, PrintRhs, TextParts, IsNumber, IsRhs, AreParts, PrintParts, Choice;
  }

  lemma ChoiceMeans(op: Operator, id: string, rhs: Rhs, a: string, b: string, env: Env)
    requires IsNumber(id) && IsRhs(rhs) && IsPlain(a) && IsPlain(b) && IsItem(ChoiceItem(op, id, rhs, a, b))
    ensures MeaningOfItem(ChoiceItem(op, id, rhs, a, b), env)
         == if Holds(env.column(NumberOf(id)), op, RhsValue(rhs, env)) then a else b
  {
    TextIsParts(a);
    TextIsParts(b);
    TextMeansItself(a, env);
    TextMeansItself(b, env);
    hide RhsValue, Holds, TextParts, IsNumber, IsRhs, NumberOf, MeaningOfParts, AreParts, IsItem;
  }

  lemma ChoiceAround(before: string, op: Operator, id: string, rhs: Rhs, right: string, a: string, b: string,
                     after: string, env: Env)
    requires IsNumber(id) && IsRhs(rhs) && PrintRhs(rhs, Dollar) == right + "}"
    requires IsPlain(before) && IsPlain(a) && IsPlain(b) && IsPlain(after)
    requires |before + Choice(PrintOperator(op), id, right, a, b) + after| <= 255
    ensures Interpret(before + Choice(PrintOperator(op), id, right, a, b) + after, env)
         == Some(before + (if Holds(env.column(NumberOf(id)), op, RhsValue(rhs, env)) then a else b) + after)
  {
    ChoiceIsItem(op, id, rhs, a, b, right, Dollar);
    ChoiceMeans(op, id, rhs, a, b, env);
    var item := ChoiceItem(op, id, rhs, a, b);
    var spelled, m := PrintItem(item, Dollar), MeaningOfItem(item, env);
    hide Run, Interpret, PrintItem, MeaningOfItem, IsItem, Choice, PrintOperator, PrintRhs, Holds, RhsValue,
      IsNumber, IsRhs, IsPlain, NumberOf, TestHolds;
    InterpretIsRun(before + spelled + after, env);
    Appended(before, spelled, after);
    RunBefore(before, spelled + after, env);
    RunIf(item, after, START.(output := before), env);
    RunBehind(after, START.(condition := TestHolds(item, env), output := before + m), env);
  }

  function Chosen(test: bool, a: string, b: string): string {
    if test then a else b
  }

  /** In a conditional with each of the six operators the first branch is written exactly when column and
      value are so related, else the second. */
  predicate Decides(before: string, id: string, right: string, a: string, b: string, after: string, env: Env, value: int)
    requires IsNumber(id) && |before| + |id| + |right| + |a| + |b| + |after| <= 243
  {
    var left := env.column(NumberOf(id));
    && Interpret(before + Choice("==", id, right, a, b) + after, env) == Some(before + Chosen(left == value, a, b) + after)
    && Interpret(before + Choice("!=", id, right, a, b) + after, env) == Some(before + Chosen(left != value, a, b) + after)
    && Interpret(before + Choice("<", id, right, a, b) + after, env) == Some(before + Chosen(left < value, a, b) + after)
    && Interpret(before + Choice("<=", id, right, a, b) + after, env) == Some(before + Chosen(left <= value, a, b) + after)
    && Interpret(before + Choice(">", id, right, a, b) + after, env) == Some(before + Chosen(left > value, a, b) + after)
    && Interpret(before + Choice(">=", id, right, a, b) + after, env) == Some(before + Chosen(left >= value, a, b) + after)
  }

  lemma ChoiceSize(op: string, id: string, right: string, a: string, b: string)
    ensures |Choice(op, id, right, a, b)| == |op| + |id| + |right| + |a| + |b| + 10
  {
  }

  lemma ChoiceDecides(before: string, id: string, rhs: Rhs, right: string, a: string, b: string, after: string, env: Env)
    requires IsNumber(id) && IsRhs(rhs) && PrintRhs(rhs, Dollar) == right + "}"
    requires IsPlain(before) && IsPlain(a) && IsPlain(b) && IsPlain(after)
    requires |before| + |id| + |right| + |a| + |b| + |after| <= 243
    ensures Decides(before, id, right, a, b, after, env, RhsValue(rhs, env))
  {
    var left := env.column(NumberOf(id));
    hide Interpret, Choice, PrintRhs, RhsValue, IsNumber, IsRhs, IsPlain, NumberOf;
    forall op: Operator
      ensures |before + Choice(PrintOperator(op), id, right, a, b) + after| <= 255
      ensures Interpret(before + Choice(PrintOperator(op), id, right, a, b) + after, env)
           == Some(before + (if Holds(left, op, RhsValue(rhs, env)) then a else b) + after)
    {
      ChoiceSize(PrintOperator(op), id, right, a, b);
      ChoiceAround(before, op, id, rhs, right, a, b, after, env);
    }
    assert PrintOperator(Equal) == "==" && PrintOperator(NotEqual) == "!=" && PrintOperator(Less) == "<";
    assert PrintOperator(LessOrEqual) == "<=" && PrintOperator(Greater) == ">" && PrintOperator(GreaterOrEqual) == ">=";
  }

  /** A column compared with a literal. */
  lemma LiteralChoice(before: string, id: string, digits: string, a: string, b: string, after: string, env: Env)
    requires IsNumber(id) && IsNumber(digits) && IsPlain(before) && IsPlain(a) && IsPlain(b) && IsPlain(after)
    requires |before| + |id| + |digits| + |a| + |b| + |after| <= 242
    ensures Decides(before, id, "$" + digits, a, b, after, env, NumberOf(digits))
  {
    assert PrintRhs(Literal(digits), Dollar) == "$" + digits + "}";
    hide Decides, IsPlain, IsNumber, PrintRhs, NumberOf;
    ChoiceDecides(before, id, Literal(digits), "$" + digits, a, b, after, env);
  }

  /** With another column. */
  lemma ColumnChoice(before: string, id: string, other: string, a: string, b: string, after: string, env: Env)
    requires IsNumber(id) && IsNumber(other) && IsPlain(before) && IsPlain(a) && IsPlain(b) && IsPlain(after)
    requires |before| + |id| + |other| + |a| + |b| + |after| <= 242
    ensures Decides(before, id, "&" + other, a, b, after, env, env.column(NumberOf(other)))
  {
    assert PrintRhs(OtherColumn(other), Dollar) == "&" + other + "}";
    hide Decides, IsPlain, IsNumber, PrintRhs, NumberOf;
    ChoiceDecides(before, id, OtherColumn(other), "&" + other, a, b, after, env);
  }

  /** With the record's own number, or with the next in 8 bits. */
  lemma RecordChoice(before: string, id: string, a: string, b: string, after: string, env: Env)
    requires IsNumber(id) && IsPlain(before) && IsPlain(a) && IsPlain(b) && IsPlain(after)
    requires |before| + |id| + |a| + |b| + |after| <= 241
    ensures Decides(before, id, "#", a, b, after, env, env.recordId)
    ensures Decides(before, id, "#+", a, b, after, env, (env.recordId + 1) % 0x100)
  {
    assert PrintRhs(OwnRecord(false), Dollar) == "#" + "}" && PrintRhs(OwnRecord(true), Dollar) == "#+" + "}";
    assert IsRhs(OwnRecord(false)) && RhsValue(OwnRecord(false), env) == env.recordId;
    assert IsRhs(OwnRecord(true)) && RhsValue(OwnRecord(true), env) == (env.recordId + 1) % 0x100;
    hide *;
    ChoiceDecides(before, id, OwnRecord(false), "#", a, b, after, env);
    ChoiceDecides(before, id, OwnRecord(true), "#+", a, b, after, env);
  }

  // ---- the write buffer ----

  /** The text is followed by spaces up to the size of the buffer. */
  lemma PaddedLaw(text: string, size: nat)
    requires |text| <= size
    ensures |Padded(text, size)| == size && Padded(text, size)[..|text|] == text
    ensures forall i :: |text| <= i < size ==> Padded(text, size)[i] == ' '
  {
  }
}
