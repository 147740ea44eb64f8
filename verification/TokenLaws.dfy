/** The tokens of tl_parseFormat, told from the characters of the format. */
module TokenLaws {
  import opened Wrappers
  import opened TemplateSyntax
  import opened TemplateParser
  import opened TemplateCompiler
  import opened TemplateCorrectness
  import F = FormatLaws

  /** The format is accepted with this code. */
  ghost predicate ParsesTo(format: string, tokens: seq<Token>, code: seq<Instruction>)
    requires |tokens| == MAX_NUM_TOKENS
  {
    Parse(format, tokens).Some? && Views(Parse(format, tokens).value.tokens, Parse(format, tokens).value.count) == code
  }

  lemma OneItem(item: Item, tokens: seq<Token>)
    requires IsItem(item) && |tokens| == MAX_NUM_TOKENS
    requires 0 < ItemSize(item) <= MAX_NUM_TOKENS && |PrintItem(item, Bare)| <= 255
    ensures ParsesTo(PrintItem(item, Bare), tokens, CompileItem(item, 0, 0, LeftBy(tokens)))
  {
    var t, code := [item], CompileItem(item, 0, 0, LeftBy(tokens));
    assert t[1..] == [];
    assert Print(t, Bare) == PrintItem(item, Bare) by {
      assert PrintItem(item, Bare) + "" == PrintItem(item, Bare);
    }
    assert Compile(t, 0, 0, LeftBy(tokens)) == code by {
      assert code + [] == code;
    }
    hide Parse, Views, PrintItem, CompileItem, Compile, Print, IsItem;
    ParserIsCorrect(t, tokens);
  }

  /** Text without tags is one token. */
  lemma TextTokenLaw(text: string, tokens: seq<Token>)
    requires IsPlain(text) && 0 < |text| <= 255 && |tokens| == MAX_NUM_TOKENS
    ensures ParsesTo(text, tokens, [WriteText(0, |text|)])
  {
    OneItem(Single(Text(text)), tokens);
    hide ParsesTo;
  }

  lemma ValueToken(v: Value, tokens: seq<Token>)
    requires IsValue(v) && |PrintPart(Tag(v))| <= 255 && |tokens| == MAX_NUM_TOKENS
    ensures ParsesTo(PrintPart(Tag(v)), tokens, [ValueInstruction(v)])
  {
    hide ParsesTo, PrintPart, ValueInstruction, IsValue;
    OneItem(Single(Tag(v)), tokens);
  }

  /** Each of the four tags is one token, with its number and flags. */
  lemma TagTokenLaw(id: string, o: bool, x: bool, plus: bool, tokens: seq<Token>)
    requires IsNumber(id) && |id| <= 249 && |tokens| == MAX_NUM_TOKENS
    ensures ParsesTo("{" + F.Mark("o", o) + F.Mark("x", x) + "&" + id + F.Mark("+", plus) + "}", tokens,
                     [WriteValue(ColumnValue, NumberOf(id), Props(o, plus, x))])
    ensures ParsesTo("{" + F.Mark("o", o) + F.Mark("x", x) + "#" + F.Mark("+", plus) + "}", tokens,
                     [WriteValue(RecordIdValue, 0, Props(o, plus, x))])
    ensures ParsesTo("{" + F.Mark("o", o) + F.Mark("x", x) + "*}", tokens,
                     [WriteValue(NumRecordsValue, 0, Props(o, false, x))])
    ensures ParsesTo("{" + F.Mark("o", o) + F.Mark("x", x) + "^" + id + "}", tokens,
                     [WriteValue(ParentColumnValue, NumberOf(id), Props(o, false, x))])
  {
    var plain, shown := Props(o, false, x), Props(o, plus, x);
    F.TagsAreSpelled(id, o, x, plus);
    hide ParsesTo, PrintPart, NumberOf;
    ValueToken(Column(shown, id), tokens);
    ValueToken(RecordId(shown), tokens);
    ValueToken(NumRecords(plain), tokens);
    ValueToken(Parent(plain, id), tokens);
  }

  // ---- conditionals ----

  /** The test, its right-hand side, and the branches, with the index of the second and that behind it. */
  function ChoiceCode(opText: string, op: Operator, id: string, right: string, valueType: ValueType, number: nat,
                      plus: bool, a: string, b: string, left: Props): seq<Instruction>
    requires IsNumber(id)
  {
    var at := 4 + |id| + |opText| + |right|;
    [Test(NumberOf(id), NO_PROPS, 3, 4),
     Against(op, valueType, number, left.(offset1 := left.offset1 || plus)),
     WriteText(at, |a|), WriteText(at + |a| + 3, |b|)]
  }

  lemma CompiledChoice(op: Operator, id: string, rhs: Rhs, right: string, valueType: ValueType, number: nat,
                       plus: bool, a: string, b: string, left: seq<Props>)
    requires |left| == MAX_NUM_TOKENS && IsNumber(id) && IsRhs(rhs) && PrintRhs(rhs, Bare) == right + "}"
    requires a != "" && b != "" && IsPlain(a) && IsPlain(b) && IsItem(F.ChoiceItem(op, id, rhs, a, b))
    requires forall props :: CompileTest(Some(Comparison(op, rhs)), props)
                             == [Against(op, valueType, number, props.(offset1 := props.offset1 || plus))]
    ensures var item := F.ChoiceItem(op, id, rhs, a, b);
            && ItemSize(item) == 4
            && CompileItem(item, 0, 0, left)
               == ChoiceCode(PrintOperator(op), op, id, right, valueType, number, plus, a, b, left[1])
  {
    var body := 4 + |id| + |PrintOperator(op)| + |right|;
    CompiledText(a, body);
    CompiledText(b, body + |a| + 3);
    hide PrintRhs, IsNumber, NumberOf, IsRhs, IsItem, CompileTest, PrintOperator, CompileParts, F.TextParts, PrintParts,
      AreParts, IsPlain;
  }

  lemma CompiledText(text: string, at: nat)
    requires text != "" && IsPlain(text)
    ensures AreParts(F.TextParts(text)) && CompileParts(F.TextParts(text), at) == [WriteText(at, |text|)]
    ensures |F.TextParts(text)| == 1 && PrintParts(F.TextParts(text)) == text
  {
    F.TextIsParts(text);
    assert [Text(text)][1..] == [];
  }

  /** A conditional with two branches of text. */
  ghost predicate ParsesToChoice(opText: string, op: Operator, id: string, right: string, valueType: ValueType,
                                 number: nat, plus: bool, a: string, b: string, tokens: seq<Token>)
    requires |tokens| == MAX_NUM_TOKENS && IsNumber(id)
  {
    ParsesTo(F.Choice(opText, id, right, a, b), tokens,
             ChoiceCode(opText, op, id, right, valueType, number, plus, a, b, tokens[1].props))
  }

  lemma ChoiceTokens(op: Operator, id: string, rhs: Rhs, right: string, valueType: ValueType, number: nat,
                     plus: bool, a: string, b: string, tokens: seq<Token>)
    requires |tokens| == MAX_NUM_TOKENS && IsNumber(id) && IsRhs(rhs) && PrintRhs(rhs, Bare) == right + "}"
    requires IsPlain(a) && IsPlain(b) && a != "" && b != "" && |id| + |right| + |a| + |b| <= 243
    requires forall left :: CompileTest(Some(Comparison(op, rhs)), left)
                            == [Against(op, valueType, number, left.(offset1 := left.offset1 || plus))]
    ensures ParsesToChoice(PrintOperator(op), op, id, right, valueType, number, plus, a, b, tokens)
  {
    var item := F.ChoiceItem(op, id, rhs, a, b);
    F.ChoiceIsItem(op, id, rhs, a, b, right, Bare);
    F.ChoiceSize(PrintOperator(op), id, right, a, b);
    assert |PrintOperator(op)| <= 2;
    assert LeftBy(tokens)[1] == tokens[1].props;
    hide ParsesTo, PrintRhs, IsNumber, NumberOf, IsPlain, IsRhs, F.Choice, F.ChoiceItem, IsItem, CompileItem, PrintItem,
      ItemSize, ChoiceCode, PrintOperator, LeftBy;
    CompiledChoice(op, id, rhs, right, valueType, number, plus, a, b, LeftBy(tokens));
    OneItem(item, tokens);
  }

  ghost predicate ParsesToEach(id: string, right: string, valueType: ValueType, number: nat, plus: bool,
                               a: string, b: string, tokens: seq<Token>)
    requires |tokens| == MAX_NUM_TOKENS && IsNumber(id)
  {
    && ParsesToChoice("==", Equal, id, right, valueType, number, plus, a, b, tokens)
    && ParsesToChoice("!=", NotEqual, id, right, valueType, number, plus, a, b, tokens)
    && ParsesToChoice("<", Less, id, right, valueType, number, plus, a, b, tokens)
    && ParsesToChoice("<=", LessOrEqual, id, right, valueType, number, plus, a, b, tokens)
    && ParsesToChoice(">", Greater, id, right, valueType, number, plus, a, b, tokens)
    && ParsesToChoice(">=", GreaterOrEqual, id, right, valueType, number, plus, a, b, tokens)
  }

  lemma EachChoice(id: string, rhs: Rhs, right: string, valueType: ValueType, number: nat, plus: bool,
                   a: string, b: string, tokens: seq<Token>)
    requires |tokens| == MAX_NUM_TOKENS && IsNumber(id) && IsRhs(rhs) && PrintRhs(rhs, Bare) == right + "}"
    requires IsPlain(a) && IsPlain(b) && a != "" && b != "" && |id| + |right| + |a| + |b| <= 243
    requires forall op, left :: CompileTest(Some(Comparison(op, rhs)), left)
                                == [Against(op, valueType, number, left.(offset1 := left.offset1 || plus))]
    ensures ParsesToEach(id, right, valueType, number, plus, a, b, tokens)
  {
    hide PrintRhs, CompileTest, IsNumber, IsRhs, IsPlain, ParsesToChoice;
    forall op: Operator
      ensures ParsesToChoice(PrintOperator(op), op, id, right, valueType, number, plus, a, b, tokens)
    {
      ChoiceTokens(op, id, rhs, right, valueType, number, plus, a, b, tokens);
    }
    assert PrintOperator(Equal) == "==" && PrintOperator(NotEqual) == "!=" && PrintOperator(Less) == "<";
    assert PrintOperator(LessOrEqual) == "<=" && PrintOperator(Greater) == ">" && PrintOperator(GreaterOrEqual) == ">=";
  }

  /** A comparison with a literal, with another column, and with the own record or the next, by each of the
      six operators. */
  lemma ChoiceTokenLaw(id: string, digits: string, a: string, b: string, tokens: seq<Token>)
    requires |tokens| == MAX_NUM_TOKENS && IsNumber(id) && IsNumber(digits)
    requires IsPlain(a) && IsPlain(b) && a != "" && b != "" && |id| + |digits| + |a| + |b| <= 240
    ensures ParsesToEach(id, digits, LiteralValue, NumberOf(digits), false, a, b, tokens)
    ensures ParsesToEach(id, "&" + digits, ColumnValue, NumberOf(digits), false, a, b, tokens)
    ensures ParsesToEach(id, "#", RecordIdValue, 0, false, a, b, tokens)
    ensures ParsesToEach(id, "#+", RecordIdValue, 0, true, a, b, tokens)
  {
    assert PrintRhs(OtherColumn(digits), Bare) == "&" + digits + "}";
    assert PrintRhs(OwnRecord(false), Bare) == "#" + "}" && PrintRhs(OwnRecord(true), Bare) == "#+" + "}";
    hide ParsesToEach, IsNumber, IsPlain;
    EachChoice(id, Literal(digits), digits, LiteralValue, NumberOf(digits), false, a, b, tokens);
    EachChoice(id, OtherColumn(digits), "&" + digits, ColumnValue, NumberOf(digits), false, a, b, tokens);
    EachChoice(id, OwnRecord(false), "#", RecordIdValue, 0, false, a, b, tokens);
    EachChoice(id, OwnRecord(true), "#+", RecordIdValue, 0, true, a, b, tokens);
  }
}
