/** The two implementations of the template language agree: scanning a format string writes what
    running the tokens of its parse writes. */
module Simulation {
  import opened MachineInts
  import opened Wrappers
  import opened TemplateSyntax
  import opened TemplateParser
  import opened TemplateCompiler
  import opened TemplateCorrectness
  import opened TemplateEvaluation
  import FormatInterpreter
  import opened InterpreterCorrectness
  import opened InterpreterRuns

  /** Every conditional compares and has an else. */
  predicate IsComplete(t: Template) {
    IsShared(t) && forall i :: 0 <= i < |t| ==> !LacksElse(t[i])
  }

  /** For templates that fit both and are orderly for the record at hand: scanning writes what the
      parse writes, provided that it is not disturbed by an offset that an earlier parse left. */
  lemma ScanningIsParsing(t: Template, tokens: seq<Token>, env: Env)
    requires IsShared(t) && IsOrderly(t, env)
    requires 0 < Size(t) <= MAX_NUM_TOKENS && |Print(t, Bare)| <= 255 && |Print(t, Dollar)| <= 255
    requires |tokens| == MAX_NUM_TOKENS && NoOffsetLeft(t, 0, LeftBy(tokens))
    ensures var parsed := Parse(Print(t, Bare), tokens);
            && parsed.Some?
            && FormatInterpreter.Interpret(Print(t, Dollar), env)
               == Some(Evaluate(Views(parsed.value.tokens, parsed.value.count), Print(t, Bare), env))
  {
    hide *;
    SharedIsTemplate(t);
    ParsedFormatMeans(t, tokens, env);
    InterpreterWritesMeaning(t, env);
  }

  /** For complete templates the two agree on every record. */
  lemma CompleteTemplatesAgree(t: Template, env: Env)
    requires IsComplete(t) && 0 < Size(t) <= MAX_NUM_TOKENS
    requires |Print(t, Bare)| <= 255 && |Print(t, Dollar)| <= 255
    ensures var parsed := Parse(Print(t, Bare), Fresh(NO_PROPS));
            && parsed.Some?
            && FormatInterpreter.Interpret(Print(t, Dollar), env)
               == Some(Evaluate(Views(parsed.value.tokens, parsed.value.count), Print(t, Bare), env))
  {
    NothingLeft(t, 0);
    hide Parse, Views, Print, Evaluate, FormatInterpreter.Interpret, Size, TestHolds, IsTemplate;
    ScanningIsParsing(t, Fresh(NO_PROPS), env);
  }

  /** tl_parseFormat and BDB_writeRecordWithFormat on the two spellings of one template: the parse is
      accepted, and where its text fits the write buffer the interpreter writes that text, padded. */
  method ParseAndWrite(parser: Parser, ghost t: Template, bare: string, dollar: string, env: Env, bufferSize: uint8)
    returns (accepted: bool, output: string, ghost text: string)
    requires parser.Valid() && IsShared(t) && IsOrderly(t, env)
    requires bare == Print(t, Bare) && dollar == Print(t, Dollar)
    requires 0 < Size(t) <= MAX_NUM_TOKENS && |bare| <= 255 && |dollar| <= 255
    requires NoOffsetLeft(t, 0, LeftBy(parser.tokens[..]))
    modifies parser.tokens
    ensures Size(t) <= parser.tokens.Length && text == Evaluate(Views(parser.tokens[..], Size(t)), bare, env)
    ensures accepted <==> |text| <= bufferSize
    ensures accepted ==> output == FormatInterpreter.Padded(text, bufferSize)
  {
    hide Parse, Views, Print, Evaluate, FormatInterpreter.Interpret, Size, IsShared, NoOffsetLeft, IsOrderly,
      Compile, IsTemplate;
    ghost var left := parser.tokens[..];
    ScanningIsParsing(t, left, env);
    SharedIsTemplate(t);
    ParserIsCorrect(t, left);
    CompileSize(t, 0, 0, LeftBy(left));
    var parsed, _ := parser.ParseFormat(bare);
    text := Evaluate(Views(parser.tokens[..], Size(t)), bare, env);
    accepted, output := FormatInterpreter.WriteRecordWithFormat(env, dollar, bufferSize);
  }

  lemma {:induction false} NothingLeft(t: Template, k: nat)
    ensures NoOffsetLeft(t, k, LeftBy(Fresh(NO_PROPS)))
    decreases t
  {
    if t != [] {
      NothingLeft(t[1..], k + ItemSize(t[0]));
    }
  }
}
