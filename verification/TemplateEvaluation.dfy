/** Running the tokens of tl_parseFormat as src/TemplateLanguage.h:14-34 describes them, and the
    proof that the tokens of a template write what the template means. */
module TemplateEvaluation {
  import opened MachineInts
  import opened Wrappers
  import opened TemplateSyntax
  import opened TemplateParser
  import opened TemplateCompiler
  import opened TemplateCorrectness

  // ---- the evaluator ----

  function RightValue(valueType: ValueType, number: nat, props: Props, env: Env): uint16 {
    match valueType
    case ColumnValue => env.column(ToUint8(number))
    case RecordIdValue => OwnRecordId(env, props.offset1)
    case _ => ToUint8(number)
  }

  /** The test at index pc, with the right-hand side in the token after it when there is one. */
  predicate HoldsAt(p: seq<Instruction>, pc: nat, env: Env)
    requires pc < |p| && p[pc].Test?
  {
    var left := ToUint8(p[pc].number);
    if pc + 1 < |p| && p[pc + 1].Against? then
      var Against(op, valueType, number, props) := p[pc + 1];
      Holds(env.column(left), op, RightValue(valueType, number, props, env))
    else env.isTrue(left)
  }

  function Written(i: Instruction, format: string, env: Env): string {
    match i
    case WriteText(start, length) => if start + length <= |format| then format[start..start + length] else ""
    case WriteValue(ColumnValue, number, props) => env.columnText(ToUint8(number), props)
    case WriteValue(RecordIdValue, _, props) => env.recordText(props)
    case WriteValue(NumRecordsValue, _, props) => env.countText(props)
    case WriteValue(ParentColumnValue, number, props) => env.parentText(ToUint8(number), props)
    case _ => ""
  }

  /** Run from token pc.  In a branch that is followed by an else, the else begins at elseAt and
      running goes on at resume. */
  function Exec(p: seq<Instruction>, format: string, env: Env, pc: nat, elseAt: nat, resume: nat): string
    decreases |p| - pc, elseAt
  {
    if pc >= |p| then ""
    else if elseAt != 0 && pc == elseAt then
      if resume < pc then "" else Exec(p, format, env, resume, 0, 0)
    else if p[pc].Test? then
      var skip := if p[pc].elseIndex == 0 then p[pc].endIndex else p[pc].elseIndex;
      var resumeAt := if p[pc].elseIndex == 0 then 0 else p[pc].endIndex;
      if HoldsAt(p, pc, env) then Exec(p, format, env, pc + 1, p[pc].elseIndex, resumeAt)
      else if skip <= pc then ""
      else Exec(p, format, env, skip, 0, 0)
    else Written(p[pc], format, env) + Exec(p, format, env, pc + 1, elseAt, resume)
  }

  function Evaluate(p: seq<Instruction>, format: string, env: Env): string {
    Exec(p, format, env, 0, 0, 0)
  }

  // ---- code and text in place ----

  predicate CodeAt(p: seq<Instruction>, k: nat, code: seq<Instruction>) {
    k + |code| <= |p| && p[k..k + |code|] == code
  }

  predicate TextAt(format: string, at: nat, s: string) {
    at + |s| <= |format| && format[at..at + |s|] == s
  }

  lemma CodeSplits(p: seq<Instruction>, k: nat, a: seq<Instruction>, b: seq<Instruction>)
    requires CodeAt(p, k, a + b)
    ensures CodeAt(p, k, a) && CodeAt(p, k + |a|, b)
  {
    assert p[k..k + |a|] == p[k..k + |a + b|][..|a|];
    assert p[k + |a|..k + |a| + |b|] == p[k..k + |a + b|][|a|..];
  }

  lemma CodeHead(p: seq<Instruction>, k: nat, i: Instruction, b: seq<Instruction>)
    requires CodeAt(p, k, [i] + b)
    ensures k < |p| && p[k] == i && CodeAt(p, k + 1, b)
  {
    CodeSplits(p, k, [i], b);
    assert p[k..k + 1][0] == p[k];
  }

  lemma TextSplits(format: string, at: nat, a: string, b: string)
    requires TextAt(format, at, a + b)
    ensures TextAt(format, at, a) && TextAt(format, at + |a|, b)
  {
    assert format[at..at + |a|] == format[at..at + |a + b|][..|a|];
    assert format[at + |a|..at + |a| + |b|] == format[at..at + |a + b|][|a|..];
  }

  // ---- the evaluator on compiled code ----

  lemma WrittenPart(p: Part, at: nat, format: string, env: Env)
    requires IsPart(p) && TextAt(format, at, PrintPart(p))
    ensures Written(CompilePart(p, at), format, env) == MeaningOfPart(p, env)
  {
    if p.Tag? {
      hide TextAt, PrintPart;
      WrittenValue(p.value, format, env);
    } else {
      hide IsPart;
      assert format[at..at + |p.text|] == p.text;
    }
  }

  lemma WrittenValue(v: Value, format: string, env: Env)
    requires IsValue(v) && IsPart(Tag(v))
    ensures Written(ValueInstruction(v), format, env) == MeaningOfPart(Tag(v), env)
  {
    hide NumberOf;
    match v
    case Column(flags, id) =>
    case RecordId(flags) =>
    case NumRecords(flags) =>
    case Parent(flags, id) =>
  }

  lemma ExecWrites(p: seq<Instruction>, format: string, env: Env, pc: nat, elseAt: nat, resume: nat)
    requires pc < |p| && !p[pc].Test? && (elseAt == 0 || pc != elseAt)
    ensures Exec(p, format, env, pc, elseAt, resume)
            == Written(p[pc], format, env) + Exec(p, format, env, pc + 1, elseAt, resume)
  {
  }

  lemma Joined(a: string, b: string, c: string)
    ensures a + (b + c) == (a + b) + c
    ensures "" + a == a && a + "" == a
  {
  }

  lemma {:induction false} ExecParts(parts: seq<Part>, p: seq<Instruction>, format: string, env: Env,
                                     at: nat, k: nat, elseAt: nat, resume: nat)
    requires AreParts(parts) && CodeAt(p, k, CompileParts(parts, at)) && TextAt(format, at, PrintParts(parts))
    requires elseAt == 0 || k + |parts| <= elseAt
    ensures Exec(p, format, env, k, elseAt, resume)
            == MeaningOfParts(parts, env) + Exec(p, format, env, k + |parts|, elseAt, resume)
    decreases parts
  {
    hide Exec, CompilePart, MeaningOfPart, Written, PrintPart, CodeAt, TextAt;
    var after := Exec(p, format, env, k + |parts|, elseAt, resume);
    if parts == [] {
      Joined(after, "", "");
    } else {
      var part, others := parts[0], parts[1..];
      var i, to := CompilePart(part, at), at + |PrintPart(part)|;
      CodeHead(p, k, i, CompileParts(others, to));
      TextSplits(format, at, PrintPart(part), PrintParts(others));
      WrittenPart(part, at, format, env);
      PartIsNoTest(part, at);
      ExecWrites(p, format, env, k, elseAt, resume);
      ExecParts(others, p, format, env, to, k + 1, elseAt, resume);
      Joined(MeaningOfPart(part, env), MeaningOfParts(others, env), after);
    }
  }

  lemma PartIsNoTest(p: Part, at: nat)
    requires IsPart(p)
    ensures !CompilePart(p, at).Test? && !CompilePart(p, at).Against?
  {
  }

  /** No earlier parse left an offset where a comparison with the record's own position is stored. */
  predicate NoOffsetLeft(t: Template, k: nat, left: seq<Props>) {
    t != [] ==>
      && (t[0].If? && t[0].test.Some? && t[0].test.value.rhs == OwnRecord(false) ==> !LeftAt(left, k + 1).offset1)
      && NoOffsetLeft(t[1..], k + ItemSize(t[0]), left)
  }

  /** A comparison with the record's own position is one with the record after it when an earlier
      parse has left an offset in its token. */
  function WithOffset(item: Item, left: Props): (r: Item)
    ensures IsItem(item) ==> IsItem(r)
    ensures r.Single? ==> r == item
    ensures r.If? ==> item.If? && r.id == item.id && r.thn == item.thn && r.els == item.els
  {
    if item.If? && item.test.Some? && item.test.value.rhs.OwnRecord? then
      item.(test := Some(item.test.value.(rhs := OwnRecord(item.test.value.rhs.plus || left.offset1))))
    else item
  }

  /** The template that is really evaluated; k is the index of its first token. */
  function WithOffsets(t: Template, k: nat, left: seq<Props>): (r: Template)
    ensures |r| == |t|
    ensures forall i :: 0 <= i < |t| ==> (t[i].Single? ==> r[i] == t[i]) && (t[i].If? ==> r[i].If?)
    ensures IsTemplate(t) ==> IsTemplate(r)
  {
    if t == [] then [] else [WithOffset(t[0], LeftAt(left, k + 1))] + WithOffsets(t[1..], k + ItemSize(t[0]), left)
  }

  /** Nothing is replaced exactly when no offset was left under such a comparison. */
  lemma {:induction false} OffsetsMatterIff(t: Template, k: nat, left: seq<Props>)
    ensures WithOffsets(t, k, left) == t <==> NoOffsetLeft(t, k, left)
    decreases t
  {
    if t != [] {
      OffsetsMatterIff(t[1..], k + ItemSize(t[0]), left);
      OffsetMattersIff(t[0], LeftAt(left, k + 1));
      hide WithOffset, IsItem, LeftAt, ItemSize;
      OffsetOfFirst(t, k, left);
    }
  }

  lemma OffsetOfFirst(t: Template, k: nat, left: seq<Props>)
    requires t != []
    ensures WithOffsets(t, k, left) == t
            <==> WithOffset(t[0], LeftAt(left, k + 1)) == t[0]
                 && WithOffsets(t[1..], k + ItemSize(t[0]), left) == t[1..]
  {
    hide WithOffset, IsItem, LeftAt, ItemSize, IsTemplate;
    assert [t[0]] + t[1..] == t;
    ConsEqual(WithOffset(t[0], LeftAt(left, k + 1)), WithOffsets(t[1..], k + ItemSize(t[0]), left), t[0], t[1..]);
  }

  lemma OffsetMattersIff(item: Item, left: Props)
    ensures WithOffset(item, left) == item
            <==> !(item.If? && item.test.Some? && item.test.value.rhs == OwnRecord(false) && left.offset1)
  {
    hide IsItem;
  }

  /** A conditional at token k and the code behind it. */
  lemma HeadHolds(item: Item, p: seq<Instruction>, env: Env, k: nat, i: Instruction, left: Props)
    requires item.If? && IsItem(item) && CodeAt(p, k, [i] + CompileTest(item.test, left))
    requires i.Test? && i.number == NumberOf(item.id)
    requires item.test.None? && k + 1 < |p| ==> !p[k + 1].Against?
    ensures HoldsAt(p, k, env) <==> TestHolds(WithOffset(item, left), env)
  {
    CodeHead(p, k, i, CompileTest(item.test, left));
    if item.test.Some? {
      CodeHead(p, k + 1, CompileTest(item.test, left)[0], []);
    }
  }

  /** Running over the right-hand side writes nothing. */
  lemma ExecTest(item: Item, p: seq<Instruction>, format: string, env: Env, k: nat, left: Props, elseAt: nat, resume: nat)
    requires item.If? && IsItem(item) && CodeAt(p, k, CompileTest(item.test, left))
    requires elseAt == 0 || k + HeadSize(item) - 1 <= elseAt
    ensures Exec(p, format, env, k, elseAt, resume) == Exec(p, format, env, k + HeadSize(item) - 1, elseAt, resume)
  {
    if item.test.Some? {
      var i := CompileTest(item.test, left)[0];
      assert CompileTest(item.test, left) == [i] + [];
      assert i.Against? && Written(i, format, env) == "";
      hide Exec, CodeAt, CompileTest, IsItem, Written;
      CodeHead(p, k, i, []);
      ExecWrites(p, format, env, k, elseAt, resume);
      Joined(Exec(p, format, env, k + 1, elseAt, resume), "", "");
    }
  }

  /** No right-hand side comes first. */
  predicate NoneAgainstAt(p: seq<Instruction>, k: nat) {
    k < |p| ==> !p[k].Against?
  }

  lemma ExecIf(p: seq<Instruction>, format: string, env: Env, pc: nat)
    requires pc < |p| && p[pc].Test?
    ensures var Test(_, _, elseIndex, endIndex) := p[pc];
            && (HoldsAt(p, pc, env) && elseIndex == 0 ==>
                  Exec(p, format, env, pc, 0, 0) == Exec(p, format, env, pc + 1, 0, 0))
            && (HoldsAt(p, pc, env) && elseIndex != 0 ==>
                  Exec(p, format, env, pc, 0, 0) == Exec(p, format, env, pc + 1, elseIndex, endIndex))
            && (!HoldsAt(p, pc, env) && elseIndex > pc ==>
                  Exec(p, format, env, pc, 0, 0) == Exec(p, format, env, elseIndex, 0, 0))
            && (!HoldsAt(p, pc, env) && elseIndex == 0 && endIndex > pc ==>
                  Exec(p, format, env, pc, 0, 0) == Exec(p, format, env, endIndex, 0, 0))
  {
    hide HoldsAt, Written;
  }

  lemma ExecJump(p: seq<Instruction>, format: string, env: Env, pc: nat, resume: nat)
    requires 0 < pc <= resume <= |p|
    ensures Exec(p, format, env, pc, pc, resume) == Exec(p, format, env, resume, 0, 0)
  {
  }

  /** The four blocks of a conditional, in the tokens. */
  lemma CodeBlocks(item: Item, p: seq<Instruction>, at: nat, k: nat, left: seq<Props>)
    requires item.If? && IsItem(item) && CodeAt(p, k, CompileItem(item, at, k, left))
    ensures var (body, b) := (at + |PrintHead(item, Bare)|, k + HeadSize(item));
            var elseIndex := if item.els.Some? then b + |item.thn| else 0;
            && CodeAt(p, k, [Test(NumberOf(item.id), item.flags, elseIndex, k + ItemSize(item))]
                            + CompileTest(item.test, LeftAt(left, k + 1)))
            && CodeAt(p, k + 1, CompileTest(item.test, LeftAt(left, k + 1)))
            && CodeAt(p, b, CompileParts(item.thn, body))
            && (item.els.Some? ==>
                  CodeAt(p, elseIndex, CompileParts(item.els.value, body + |PrintParts(item.thn)| + 3)))
            && k + ItemSize(item) <= |p|
  {
    hide CodeAt, PrintHead, PrintParts, CompileParts, CompileTest, AreParts, NumberOf, LeftAt;
    var (body, b) := (at + |PrintHead(item, Bare)|, k + HeadSize(item));
    var elseIndex := if item.els.Some? then b + |item.thn| else 0;
    var i := Test(NumberOf(item.id), item.flags, elseIndex, k + ItemSize(item));
    var test, thn := CompileTest(item.test, LeftAt(left, k + 1)), CompileParts(item.thn, body);
    var els := CompileElse(item.els, body + |PrintParts(item.thn)|);
    CodeIn(p, k, CompileItem(item, at, k, left));
    CodeOfBlocks(p, k, i, test, thn, els);
  }

  lemma CodeOfBlocks(p: seq<Instruction>, k: nat, i: Instruction, test: seq<Instruction>, thn: seq<Instruction>,
                     els: seq<Instruction>)
    requires CodeAt(p, k, [i] + test + thn + els)
    ensures CodeAt(p, k, [i] + test) && CodeAt(p, k + 1, test) && CodeAt(p, k + 1 + |test|, thn)
    ensures CodeAt(p, k + 1 + |test| + |thn|, els)
  {
    hide CodeAt;
    CodeSplits(p, k, [i] + test + thn, els);
    CodeSplits(p, k, [i] + test, thn);
    CodeHead(p, k, i, test);
  }

  /** And in the format string. */
  lemma TextBlocks(item: Item, format: string, at: nat)
    requires item.If? && IsItem(item) && TextAt(format, at, PrintItem(item, Bare))
    ensures var body := at + |PrintHead(item, Bare)|;
            && TextAt(format, body, PrintParts(item.thn))
            && (item.els.Some? ==> TextAt(format, body + |PrintParts(item.thn)| + 3, PrintParts(item.els.value)))
  {
    hide TextAt, PrintHead, PrintParts, AreParts, NumberOf;
    var body, rest := at + |PrintHead(item, Bare)|, PrintElse(item.els) + "{;}";
    TextSplits(format, at, PrintHead(item, Bare), PrintParts(item.thn) + rest);
    TextSplits(format, body, PrintParts(item.thn), rest);
    if item.els.Some? {
      assert rest == "{:}" + (PrintParts(item.els.value) + "{;}");
      TextSplits(format, body + |PrintParts(item.thn)|, "{:}", PrintParts(item.els.value) + "{;}");
      TextSplits(format, body + |PrintParts(item.thn)| + 3, PrintParts(item.els.value), "{;}");
    }
  }

  lemma CodeIn(p: seq<Instruction>, k: nat, code: seq<Instruction>)
    requires CodeAt(p, k, code)
    ensures k + |code| <= |p|
  {
  }

  /** The branch for a test that holds, up to the end of the conditional. */
  lemma ExecThen(item: Item, p: seq<Instruction>, format: string, env: Env, body: nat, k: nat, left: Props, elseIndex: nat)
    requires item.If? && IsItem(item) && CodeAt(p, k + 1, CompileTest(item.test, left)) && k + ItemSize(item) <= |p|
    requires CodeAt(p, k + HeadSize(item), CompileParts(item.thn, body)) && TextAt(format, body, PrintParts(item.thn))
    requires item.test.None? ==> NoneAgainstAt(p, k + 1)
    requires elseIndex == if item.els.Some? then k + HeadSize(item) + |item.thn| else 0
    ensures var end := k + ItemSize(item);
            Exec(p, format, env, k + 1, elseIndex, if item.els.Some? then end else 0)
            == MeaningOfParts(item.thn, env) + Exec(p, format, env, end, 0, 0)
  {
    hide Exec, CodeAt, TextAt, PrintParts, CompileParts, CompileTest, AreParts, NumberOf, MeaningOfParts, IsRhs;
    var end := k + ItemSize(item);
    var resume := if item.els.Some? then end else 0;
    ExecTest(item, p, format, env, k + 1, left, elseIndex, resume);
    ExecParts(item.thn, p, format, env, body, k + HeadSize(item), elseIndex, resume);
    if item.els.Some? {
      ExecJump(p, format, env, elseIndex, end);
    }
  }

  /** A test that holds jumps into its branch. */
  lemma ExecHolds(item: Item, p: seq<Instruction>, format: string, env: Env, at: nat, k: nat, left: seq<Props>)
    requires item.If? && IsItem(item) && CodeAt(p, k, CompileItem(item, at, k, left))
    requires TextAt(format, at, PrintItem(item, Bare)) && (item.test.None? ==> NoneAgainstAt(p, k + 1))
    requires TestHolds(WithOffset(item, LeftAt(left, k + 1)), env)
    ensures Exec(p, format, env, k, 0, 0) == MeaningOfParts(item.thn, env) + Exec(p, format, env, k + ItemSize(item), 0, 0)
  {
    hide Exec, CodeAt, TextAt, PrintHead, PrintParts, CompileParts, CompileTest, AreParts, NumberOf, HoldsAt,
      MeaningOfParts, IsRhs, TestHolds, LeftAt;
    CodeBlocks(item, p, at, k, left);
    TextBlocks(item, format, at);
    var elseIndex := if item.els.Some? then k + HeadSize(item) + |item.thn| else 0;
    var i := Test(NumberOf(item.id), item.flags, elseIndex, k + ItemSize(item));
    CodeHead(p, k, i, CompileTest(item.test, LeftAt(left, k + 1)));
    HeadHolds(item, p, env, k, i, LeftAt(left, k + 1));
    ExecIf(p, format, env, k);
    ExecThen(item, p, format, env, at + |PrintHead(item, Bare)|, k, LeftAt(left, k + 1), elseIndex);
  }

  /** A test that fails jumps into the else branch or to the end. */
  lemma ExecFails(item: Item, p: seq<Instruction>, format: string, env: Env, at: nat, k: nat, left: seq<Props>)
    requires item.If? && IsItem(item) && CodeAt(p, k, CompileItem(item, at, k, left))
    requires TextAt(format, at, PrintItem(item, Bare)) && (item.test.None? ==> NoneAgainstAt(p, k + 1))
    requires !TestHolds(WithOffset(item, LeftAt(left, k + 1)), env)
    ensures Exec(p, format, env, k, 0, 0)
            == (if item.els.Some? then MeaningOfParts(item.els.value, env) else "")
               + Exec(p, format, env, k + ItemSize(item), 0, 0)
  {
    hide Exec, CodeAt, TextAt, PrintHead, PrintParts, CompileParts, CompileTest, AreParts, NumberOf, HoldsAt,
      MeaningOfParts, IsRhs, TestHolds, LeftAt;
    CodeBlocks(item, p, at, k, left);
    TextBlocks(item, format, at);
    var body, end := at + |PrintHead(item, Bare)|, k + ItemSize(item);
    var elseIndex := if item.els.Some? then k + HeadSize(item) + |item.thn| else 0;
    var i := Test(NumberOf(item.id), item.flags, elseIndex, end);
    CodeHead(p, k, i, CompileTest(item.test, LeftAt(left, k + 1)));
    HeadHolds(item, p, env, k, i, LeftAt(left, k + 1));
    ExecIf(p, format, env, k);
    if item.els.Some? {
      ExecParts(item.els.value, p, format, env, body + |PrintParts(item.thn)| + 3, elseIndex, 0, 0);
    } else {
      Joined(Exec(p, format, env, end, 0, 0), "", "");
    }
  }

  lemma ExecIfItem(item: Item, p: seq<Instruction>, format: string, env: Env, at: nat, k: nat, left: seq<Props>)
    requires item.If? && IsItem(item) && CodeAt(p, k, CompileItem(item, at, k, left))
    requires TextAt(format, at, PrintItem(item, Bare))
    requires item.test.None? ==> NoneAgainstAt(p, k + 1)
    ensures Exec(p, format, env, k, 0, 0)
            == MeaningOfItem(WithOffset(item, LeftAt(left, k + 1)), env) + Exec(p, format, env, k + ItemSize(item), 0, 0)
  {
    hide Exec, CodeAt, TextAt, PrintItem, CompileItem, MeaningOfParts, TestHolds, LeftAt, NoneAgainstAt;
    if TestHolds(WithOffset(item, LeftAt(left, k + 1)), env) {
      ExecHolds(item, p, format, env, at, k, left);
    } else {
      ExecFails(item, p, format, env, at, k, left);
    }
  }

  lemma ExecItem(item: Item, p: seq<Instruction>, format: string, env: Env, at: nat, k: nat, left: seq<Props>)
    requires IsItem(item) && CodeAt(p, k, CompileItem(item, at, k, left)) && TextAt(format, at, PrintItem(item, Bare))
    requires item.If? && item.test.None? ==> NoneAgainstAt(p, k + 1)
    ensures Exec(p, format, env, k, 0, 0)
            == MeaningOfItem(WithOffset(item, LeftAt(left, k + 1)), env) + Exec(p, format, env, k + ItemSize(item), 0, 0)
  {
    if item.If? {
      hide *;
      ExecIfItem(item, p, format, env, at, k, left);
    } else {
      hide Exec, CompilePart, Written, PrintPart, MeaningOfPart;
      CodeHead(p, k, CompilePart(item.part, at), []);
      PartIsNoTest(item.part, at);
      WrittenPart(item.part, at, format, env);
      ExecWrites(p, format, env, k, 0, 0);
    }
  }

  lemma {:induction false} FirstOfParts(parts: seq<Part>, at: nat)
    requires AreParts(parts)
    ensures parts != [] ==> !CompileParts(parts, at)[0].Against?
  {
    if parts != [] {
      PartIsNoTest(parts[0], at);
    }
  }

  lemma SecondOfItem(item: Item, at: nat, k: nat, left: seq<Props>)
    requires IsItem(item) && item.If? && item.test.None?
    ensures var code := CompileItem(item, at, k, left); |code| > 1 ==> !code[1].Against?
  {
    hide PrintHead, PrintParts, AreParts, NumberOf, CompileParts;
    var body := at + |PrintHead(item, Bare)|;
    FirstOfParts(item.thn, body);
    if item.els.Some? {
      FirstOfParts(item.els.value, body + |PrintParts(item.thn)| + 3);
    }
  }

  /** The token after a test without comparison is no right-hand side. */
  lemma NoneAgainst(t: Template, p: seq<Instruction>, at: nat, k: nat, left: seq<Props>)
    requires t != [] && IsTemplate(t) && t[0].If? && t[0].test.None?
    requires k < |p| && p[k..] == Compile(t, at, k, left)
    ensures NoneAgainstAt(p, k + 1)
  {
    var item, rest, to := t[0], t[1..], at + |PrintItem(t[0], Bare)|;
    var n, more := ItemSize(item), Compile(rest, to, k + ItemSize(item), left);
    if k + 1 < |p| {
      SecondOfItem(item, at, k, left);
      hide CompileItem, PrintItem, IsItem;
      assert p[k + 1] == p[k..][1];
      if n == 1 {
        FirstOfTemplate(rest, to, k + n, left);
      }
    }
  }

  lemma FirstOfTemplate(t: Template, at: nat, k: nat, left: seq<Props>)
    requires IsTemplate(t) && Compile(t, at, k, left) != []
    ensures !Compile(t, at, k, left)[0].Against?
  {
    assert t != [];
    if t[0].Single? {
      PartIsNoTest(t[0].part, at);
    }
  }

  lemma SuffixSplits<T>(s: seq<T>, k: nat, a: seq<T>, b: seq<T>)
    requires k <= |s| && s[k..] == a + b
    ensures k + |a| <= |s| && s[k..k + |a|] == a && s[k + |a|..] == b
  {
    assert s[k..][..|a|] == a && s[k..][|a|..] == b;
  }

  lemma {:induction false} ExecTemplate(t: Template, p: seq<Instruction>, format: string, env: Env,
                                        at: nat, k: nat, left: seq<Props>)
    requires IsTemplate(t)
    requires k <= |p| && p[k..] == Compile(t, at, k, left) && at <= |format| && format[at..] == Print(t, Bare)
    ensures Exec(p, format, env, k, 0, 0) == Meaning(WithOffsets(t, k, left), env)
    decreases t
  {
    hide CompileItem, MeaningOfItem, PrintItem, IsItem, Exec, WithOffset;
    if t == [] {
      ExecAtEnd(p, format, env, k);
    } else {
      var item, rest, to := t[0], t[1..], at + |PrintItem(t[0], Bare)|;
      var code := CompileItem(item, at, k, left);
      SuffixSplits(p, k, code, Compile(rest, to, k + ItemSize(item), left));
      SuffixSplits(format, at, PrintItem(item, Bare), Print(rest, Bare));
      if item.If? && item.test.None? {
        NoneAgainst(t, p, at, k, left);
      }
      ExecItem(item, p, format, env, at, k, left);
      ExecTemplate(rest, p, format, env, to, k + ItemSize(item), left);
      var first, others := WithOffset(item, LeftAt(left, k + 1)), WithOffsets(rest, k + ItemSize(item), left);
      assert ([first] + others)[0] == first && ([first] + others)[1..] == others;
    }
  }

  lemma ExecAtEnd(p: seq<Instruction>, format: string, env: Env, pc: nat)
    requires pc >= |p|
    ensures Exec(p, format, env, pc, 0, 0) == ""
  {
  }

  /** Compiler correctness, whatever earlier parses left behind: what tl_parseFormat makes of the
      spelling of a template writes what the template means with the offsets that were left; and that
      is the template itself exactly when no offset was left under a comparison with the record. */
  lemma ParsedFormatMeans(t: Template, tokens: seq<Token>, env: Env)
    requires IsTemplate(t) && |tokens| == MAX_NUM_TOKENS
    requires 0 < Size(t) <= MAX_NUM_TOKENS && |Print(t, Bare)| <= 255
    ensures var parsed := Parse(Print(t, Bare), tokens);
            parsed.Some?
            && Evaluate(Views(parsed.value.tokens, parsed.value.count), Print(t, Bare), env)
                 == Meaning(WithOffsets(t, 0, LeftBy(tokens)), env)
    ensures WithOffsets(t, 0, LeftBy(tokens)) == t <==> NoOffsetLeft(t, 0, LeftBy(tokens))
  {
    hide Parse, Compile, Print, Exec, Views, IsTemplate, NoOffsetLeft, Meaning;
    OffsetsMatterIff(t, 0, LeftBy(tokens));
    ParserIsCorrect(t, tokens);
    var p := Compile(t, 0, 0, LeftBy(tokens));
    assert p[0..] == p && Print(t, Bare)[0..] == Print(t, Bare);
    ExecTemplate(t, p, Print(t, Bare), env, 0, 0, LeftBy(tokens));
  }

  // ---- what earlier parses leave behind ----

  predicate Compares(t: Template) {
    exists i :: 0 <= i < |t| && t[i].If? && t[i].test.Some?
  }

  /** A template is an item and a template. */
  lemma Unfolded(t: Template, at: nat, k: nat, left: seq<Props>)
    requires IsTemplate(t) && t != []
    ensures IsItem(t[0]) && IsTemplate(t[1..]) && Size(t) == ItemSize(t[0]) + Size(t[1..])
    ensures Compares(t) <==> (t[0].If? && t[0].test.Some?) || Compares(t[1..])
    ensures Compile(t, at, k, left)
            == CompileItem(t[0], at, k, left) + Compile(t[1..], at + |PrintItem(t[0], Bare)|, k + ItemSize(t[0]), left)
  {
    hide IsItem, CompileItem, PrintItem;
    assert forall i :: 0 <= i < |t| - 1 ==> t[1..][i] == t[i + 1];
    if t[0].If? && t[0].test.Some? {
    } else if Compares(t) {
      var i :| 0 <= i < |t| && t[i].If? && t[i].test.Some?;
      assert t[1..][i - 1] == t[i];
    }
  }

  lemma NothingCompiled(at: nat, k: nat, left: seq<Props>)
    ensures Compile([], at, k, left) == []
  {
  }

  lemma {:induction false} CompiledAlike(t: Template, at: nat, k: nat, left: seq<Props>, left': seq<Props>)
    requires IsTemplate(t) && !Compares(t)
    ensures Compile(t, at, k, left) == Compile(t, at, k, left')
    decreases t
  {
    hide IsTemplate, Compares, Compile, CompileItem, PrintItem, IsItem;
    if t == [] {
      NothingCompiled(at, k, left);
      NothingCompiled(at, k, left');
    } else {
      Unfolded(t, at, k, left);
      Unfolded(t, at, k, left');
      ItemIsAlike(t[0], at, k, left, left');
      CompiledAlike(t[1..], at + |PrintItem(t[0], Bare)|, k + ItemSize(t[0]), left, left');
    }
  }

  lemma ItemIsAlike(item: Item, at: nat, k: nat, left: seq<Props>, left': seq<Props>)
    requires IsItem(item) && (item.If? ==> item.test.None?)
    ensures CompileItem(item, at, k, left) == CompileItem(item, at, k, left')
  {
    hide PrintHead, PrintParts, CompileParts, CompilePart, AreParts, NumberOf;
  }

  lemma ItemIsUnlike(item: Item, at: nat, k: nat, left: seq<Props>, left': seq<Props>)
    requires IsItem(item) && item.If? && item.test.Some? && k + 1 < |left| == |left'|
    requires !left[k + 1].asHex && left'[k + 1].asHex
    ensures CompileItem(item, at, k, left)[1] != CompileItem(item, at, k, left')[1]
  {
    hide PrintHead, PrintParts, CompileParts, AreParts, NumberOf;
  }

  lemma Differ<T>(a: seq<T>, b: seq<T>, a': seq<T>, b': seq<T>)
    requires |a| == |a'| && (b != b' || exists i :: 0 <= i < |a| && a[i] != a'[i])
    ensures a + b != a' + b'
  {
    assert (a + b)[..|a|] == a && (a + b)[|a|..] == b;
    assert (a' + b')[..|a|] == a' && (a' + b')[|a|..] == b';
  }

  /** A comparison keeps the hexadecimal flag that it finds. */
  lemma {:induction false} CompiledUnlike(t: Template, at: nat, k: nat, left: seq<Props>, left': seq<Props>)
    requires IsTemplate(t) && Compares(t) && k + Size(t) <= |left| == |left'|
    requires forall i :: 0 <= i < |left| ==> !left[i].asHex && left'[i].asHex
    ensures Compile(t, at, k, left) != Compile(t, at, k, left')
    decreases t
  {
    hide IsTemplate, Compares, Compile, Size, CompileItem, PrintItem, IsItem;
    assert t != [] by {
      NothingCompares();
    }
    Unfolded(t, at, k, left);
    Unfolded(t, at, k, left');
    var item, to, n := t[0], at + |PrintItem(t[0], Bare)|, ItemSize(t[0]);
    var code, code' := CompileItem(item, at, k, left), CompileItem(item, at, k, left');
    if item.If? && item.test.Some? {
      ItemIsUnlike(item, at, k, left, left');
    } else {
      CompiledUnlike(t[1..], to, k + n, left, left');
    }
    Differ(code, Compile(t[1..], to, k + n, left), code', Compile(t[1..], to, k + n, left'));
  }

  lemma NothingCompares()
    ensures !Compares([])
  {
  }

  predicate ParsesAlike(format: string, tokens: seq<Token>, tokens': seq<Token>)
    requires |tokens| == |tokens'| == MAX_NUM_TOKENS
  {
    var (parsed, parsed') := (Parse(format, tokens), Parse(format, tokens'));
    && parsed.Some? && parsed'.Some?
    && Views(parsed.value.tokens, parsed.value.count) == Views(parsed'.value.tokens, parsed'.value.count)
  }

  function Fresh(props: Props): (tokens: seq<Token>)
    ensures |tokens| == MAX_NUM_TOKENS
  {
    seq(MAX_NUM_TOKENS, _ => Token(Invalid, ColumnValue, 0, props, Unset))
  }

  /** Parsing a template gives the same whatever earlier parses left exactly when it compares
      nothing: the right-hand side of a comparison keeps the flags it finds. */
  lemma ParseDependsOnEarlier(t: Template)
    requires IsTemplate(t) && 0 < Size(t) <= MAX_NUM_TOKENS && |Print(t, Bare)| <= 255
    ensures !Compares(t)
            <==> (forall tokens, tokens' :: |tokens| == |tokens'| == MAX_NUM_TOKENS ==>
                    ParsesAlike(Print(t, Bare), tokens, tokens'))
  {
    hide Parse, Compile, Print, Views, IsTemplate;
    if Compares(t) {
      var tokens, tokens' := Fresh(NO_PROPS), Fresh(NO_PROPS.(asHex := true));
      ParserIsCorrect(t, tokens);
      ParserIsCorrect(t, tokens');
      CompiledUnlike(t, 0, 0, LeftBy(tokens), LeftBy(tokens'));
      assert !ParsesAlike(Print(t, Bare), tokens, tokens');
    } else {
      forall tokens, tokens' | |tokens| == |tokens'| == MAX_NUM_TOKENS
        ensures ParsesAlike(Print(t, Bare), tokens, tokens')
      {
        ParserIsCorrect(t, tokens);
        ParserIsCorrect(t, tokens');
        CompiledAlike(t, 0, 0, LeftBy(tokens), LeftBy(tokens'));
      }
    }
  }

  const AN_OFFSET: Template := [Single(Text("a")), Single(Tag(RecordId(NO_PROPS.(offset1 := true))))]
  const OWN_RECORD: Template := [If(NO_PROPS, "0", Some(Comparison(Equal, OwnRecord(false))), [Text("y")], None)]

  lemma OffsetExample()
    ensures IsTemplate(AN_OFFSET) && Size(AN_OFFSET) == 2 && Print(AN_OFFSET, Bare) == "a{#+}"
    ensures forall left :: Compile(AN_OFFSET, 0, 0, left)
                           == [WriteText(0, 1), WriteValue(RecordIdValue, 0, NO_PROPS.(offset1 := true))]
  {
    var a, b := AN_OFFSET, [Single(Tag(RecordId(NO_PROPS.(offset1 := true))))];
    assert a[1..] == b && b[1..] == [];
    assert PrintItem(b[0], Bare) == "{#+}";
    assert Print(b, Bare) == "{#+}" + Print(b[1..], Bare);
    assert Print(a, Bare) == "a" + Print(b, Bare);
    assert Size(a) == 1 + Size(b);
    forall left: seq<Props>
      ensures Compile(a, 0, 0, left) == [WriteText(0, 1), WriteValue(RecordIdValue, 0, NO_PROPS.(offset1 := true))]
    {
      assert Compile(b, 1, 1, left) == CompileItem(b[0], 1, 1, left) + Compile(b[1..], 5, 2, left);
      assert Compile(a, 0, 0, left) == CompileItem(a[0], 0, 0, left) + Compile(b, 1, 1, left);
    }
  }

  lemma OwnRecordIsTemplate()
    ensures IsTemplate(OWN_RECORD) && Size(OWN_RECORD) == 3 && OWN_RECORD[1..] == []
  {
    var o := OWN_RECORD;
    assert o[1..] == [];
    assert NumberOf("0") == ReadOn(0, "") == 0;
  }

  lemma OwnRecordIsPrinted()
    ensures Print(OWN_RECORD, Bare) == "{?&0==#}y{;}"
  {
    ItemIsPrinted();
    assert OWN_RECORD[1..] == [];
    assert "{?&0==#}" + ("y" + ("" + "{;}")) + "" == "{?&0==#}y{;}";
  }

  lemma ItemIsPrinted()
    ensures PrintItem(OWN_RECORD[0], Bare) == "{?&0==#}" + ("y" + ("" + "{;}"))
  {
    var o, y := OWN_RECORD, [Text("y")];
    assert o[1..] == [] && y[1..] == [];
    assert PrintParts(y) == PrintPart(y[0]) + PrintParts(y[1..]) == "y" + "";
    assert PrintTest(o[0].test, Bare) == "==" + ("#" + ("" + "}"));
    assert PrintHead(o[0], Bare) == "{" + (("" + "") + ("?&" + ("0" + PrintTest(o[0].test, Bare))));
    hide PrintHead, PrintParts;
    assert PrintItem(o[0], Bare) == PrintHead(o[0], Bare) + (PrintParts(y) + ("" + "{;}"));
  }

  lemma OwnRecordExample(left: seq<Props>, env: Env)
    requires IsTemplate(OWN_RECORD) && OWN_RECORD[1..] == []
    ensures Compile(OWN_RECORD, 0, 0, left)
            == [Test(0, NO_PROPS, 0, 3), Against(Equal, RecordIdValue, 0, LeftAt(left, 1)), WriteText(8, 1)]
    ensures env.column(0) == env.recordId ==> Meaning(OWN_RECORD, env) == "y"
  {
    var o, y := OWN_RECORD, [Text("y")];
    assert y[1..] == [];
    assert NumberOf("0") == ReadOn(0, "") == 0;
    assert PrintHead(o[0], Bare) == "{?&0==#}";
    var plain := LeftAt(left, 1);
    assert plain.(offset1 := plain.offset1 || false) == plain;
    assert CompileParts(y, 8) == [WriteText(8, 1)];
    hide Holds;
    assert Compile(o, 0, 0, left) == CompileItem(o[0], 0, 0, left);
    assert MeaningOfParts(y, env) == "y";
    assert Meaning(o, env) == MeaningOfItem(o[0], env) + Meaning(o[1..], env);
    EqualHolds(env.recordId);
  }

  lemma EqualHolds(x: uint16)
    ensures Holds(x, Equal, x)
  {
  }

  /** Parsing "{?&0==#}y{;}" after "a{#+}": the comparison is then with the record after this one. */
  lemma OffsetIsLeftBehind(env: Env)
    requires env.recordId < 255 && env.column(0) == env.recordId
    ensures var first := Parse(Print(AN_OFFSET, Bare), Fresh(NO_PROPS));
            && first.Some?
            && var second := Parse(Print(OWN_RECORD, Bare), first.value.tokens);
            && second.Some?
            && Evaluate(Views(second.value.tokens, second.value.count), Print(OWN_RECORD, Bare), env) == ""
            && Meaning(OWN_RECORD, env) == "y"
  {
    hide Parse, Compile, Print, IsTemplate, Size, Meaning;
    OffsetExample();
    ParserIsCorrect(AN_OFFSET, Fresh(NO_PROPS));
    var first := Parse(Print(AN_OFFSET, Bare), Fresh(NO_PROPS)).value;
    assert Views(first.tokens, first.count)[1] == View(first.tokens[1]);
    var left := LeftBy(first.tokens);
    assert LeftAt(left, 1) == NO_PROPS.(offset1 := true);
    OwnRecordIsTemplate();
    OwnRecordIsPrinted();
    OwnRecordExample(left, env);
    ParserIsCorrect(OWN_RECORD, first.tokens);
    var p := Compile(OWN_RECORD, 0, 0, left);
    assert !HoldsAt(p, 0, env);
    assert Exec(p, Print(OWN_RECORD, Bare), env, 3, 0, 0) == "";
  }
}
