/** What the scanning interpreter writes for the spelling of a template, and when that is what the
    template means. */
module InterpreterCorrectness {
  import opened TemplateSyntax

  /** The templates that the interpreter reads: every conditional compares. */
  predicate IsShared(t: Template) {
    IsTemplate(t) && forall i :: 0 <= i < |t| && t[i].If? ==> t[i].test.Some?
  }

  // ---- what the interpreter writes ----

  /** What the items of t write, each with its index; k is the index of the first. */
  function Pieces(t: Template, k: nat, env: Env): seq<(nat, string)>
    requires IsTemplate(t)
  {
    if t == [] then [] else [(k, MeaningOfItem(t[0], env))] + Pieces(t[1..], k + 1, env)
  }

  predicate HasElse(item: Item) {
    item.If? && item.els.Some?
  }

  predicate LacksElse(item: Item) {
    item.If? && item.els.None?
  }

  /** What the interpreter writes: a test that fails where there is no else makes it skip to the
      next else, whichever conditional that belongs to. */
  function ScannedPieces(t: Template, k: nat, env: Env): seq<(nat, string)>
    requires IsTemplate(t)
    decreases t, 0
  {
    if t == [] then []
    else if LacksElse(t[0]) && !TestHolds(t[0], env) then [(k, "")] + SkippedPieces(t[1..], k + 1, env)
    else [(k, MeaningOfItem(t[0], env))] + ScannedPieces(t[1..], k + 1, env)
  }

  function SkippedPieces(t: Template, k: nat, env: Env): seq<(nat, string)>
    requires IsTemplate(t)
    decreases t, 1
  {
    if t == [] then []
    else if HasElse(t[0]) then [(k, MeaningOfParts(t[0].els.value, env))] + ScannedPieces(t[1..], k + 1, env)
    else SkippedPieces(t[1..], k + 1, env)
  }

  function Joined(pieces: seq<(nat, string)>): string {
    if pieces == [] then "" else pieces[0].1 + Joined(pieces[1..])
  }

  lemma {:induction false} JoinedPieces(t: Template, k: nat, env: Env)
    requires IsTemplate(t)
    ensures Joined(Pieces(t, k, env)) == Meaning(t, env)
  {
    hide MeaningOfItem, IsItem;
    if t != [] {
      JoinedPieces(t[1..], k + 1, env);
      assert Pieces(t, k, env)[1..] == Pieces(t[1..], k + 1, env);
    }
  }

  /** Where a conditional without else fails, nothing follows, or a conditional whose else branch is
      what it means. */
  predicate IsOrderly(t: Template, env: Env)
    requires IsTemplate(t)
  {
    forall i :: 0 <= i < |t| && LacksElse(t[i]) && !TestHolds(t[i], env) ==>
      i + 1 == |t| || (HasElse(t[i + 1]) && MeaningOfItem(t[i + 1], env) == MeaningOfParts(t[i + 1].els.value, env))
  }

  lemma {:induction false} IndicesAreSmall(t: Template, k: nat, env: Env)
    requires IsTemplate(t)
    ensures |ScannedPieces(t, k, env)| <= |t|
    ensures |SkippedPieces(t, k, env)| <= |t|
    decreases t
  {
    hide MeaningOfItem, IsItem;
    if t != [] {
      IndicesAreSmall(t[1..], k + 1, env);
    }
  }

  lemma {:induction false} PieceCount(t: Template, k: nat, env: Env)
    requires IsTemplate(t)
    ensures |Pieces(t, k, env)| == |t|
    decreases t
  {
    hide MeaningOfItem, IsItem;
    if t != [] {
      PieceCount(t[1..], k + 1, env);
    }
  }

  lemma OrderlyRest(t: Template, env: Env)
    requires IsTemplate(t) && t != []
    ensures IsTemplate(t[1..])
    ensures IsOrderly(t, env)
            <==> IsOrderly(t[1..], env)
                 && (LacksElse(t[0]) && !TestHolds(t[0], env) ==>
                       |t| == 1 || (HasElse(t[1]) && MeaningOfItem(t[1], env) == MeaningOfParts(t[1].els.value, env)))
  {
    hide MeaningOfItem, IsItem, TestHolds, MeaningOfParts, LacksElse, HasElse;
    assert forall i :: 0 <= i < |t| - 1 ==> t[1..][i] == t[i + 1];
  }

  lemma FailsSilently(item: Item, env: Env)
    requires IsItem(item) && LacksElse(item) && !TestHolds(item, env)
    ensures MeaningOfItem(item, env) == ""
  {
  }

  /** Skipping into t writes what t means exactly when the else that is found belongs to the first
      item. */
  lemma SkippedIff(t: Template, k: nat, env: Env)
    requires IsTemplate(t) && (ScannedPieces(t, k, env) == Pieces(t, k, env) <==> IsOrderly(t, env))
    ensures SkippedPieces(t, k, env) == Pieces(t, k, env)
            <==> IsOrderly(t, env)
                 && (t == [] || (HasElse(t[0]) && MeaningOfItem(t[0], env) == MeaningOfParts(t[0].els.value, env)))
  {
    if t != [] {
      var (m, rest) := (MeaningOfItem(t[0], env), t[1..]);
      hide MeaningOfItem, IsItem, TestHolds, IsOrderly, MeaningOfParts;
      if HasElse(t[0]) {
        var e := MeaningOfParts(t[0].els.value, env);
        ConsEqual((k, e), ScannedPieces(rest, k + 1, env), (k, m), Pieces(rest, k + 1, env));
        ConsEqual((k, m), ScannedPieces(rest, k + 1, env), (k, m), Pieces(rest, k + 1, env));
      } else {
        IndicesAreSmall(rest, k + 1, env);
        PieceCount(t, k, env);
      }
    }
  }

  /** The interpreter writes item by item what the template means exactly when the template is
      orderly. */
  lemma {:induction false} ScannedIffOrderly(t: Template, k: nat, env: Env)
    requires IsTemplate(t)
    ensures ScannedPieces(t, k, env) == Pieces(t, k, env) <==> IsOrderly(t, env)
    decreases t
  {
    if t != [] {
      var (m, rest) := (MeaningOfItem(t[0], env), t[1..]);
      OrderlyRest(t, env);
      ScannedIffOrderly(rest, k + 1, env);
      if LacksElse(t[0]) && !TestHolds(t[0], env) {
        FailsSilently(t[0], env);
        SkippedIff(rest, k + 1, env);
        hide MeaningOfItem, IsItem, TestHolds, IsOrderly, MeaningOfParts, IsTemplate;
        ConsEqual((k, ""), SkippedPieces(rest, k + 1, env), (k, m), Pieces(rest, k + 1, env));
      } else {
        hide MeaningOfItem, IsItem, TestHolds, IsOrderly, MeaningOfParts, IsTemplate;
        ConsEqual((k, m), ScannedPieces(rest, k + 1, env), (k, m), Pieces(rest, k + 1, env));
      }
    }
  }

  // ---- the written text ----

  /** The items behind the first conditional without else whose test fails; none where all hold. */
  function BehindFailing(t: Template, env: Env): (rest: Template)
    requires IsTemplate(t)
    ensures IsTemplate(rest) && |rest| <= |t|
  {
    if t == [] then []
    else if LacksElse(t[0]) && !TestHolds(t[0], env) then t[1..]
    else BehindFailing(t[1..], env)
  }

  /** What is written from there on, beginning with the next else branch, is what these items mean. */
  predicate RestIsWritten(t: Template, k: nat, env: Env)
    requires IsTemplate(t)
  {
    var rest := BehindFailing(t, env);
    Joined(SkippedPieces(rest, k + |t| - |rest|, env)) == Meaning(rest, env)
  }

  lemma PrefixCancels(m: string, a: string, b: string)
    ensures m + a == m + b <==> a == b
  {
    assert (m + a)[|m|..] == a && (m + b)[|m|..] == b;
  }

  lemma JoinedCons(piece: (nat, string), pieces: seq<(nat, string)>)
    ensures Joined([piece] + pieces) == piece.1 + Joined(pieces)
  {
    assert ([piece] + pieces)[1..] == pieces;
  }

  /** The text is right exactly when that is so. */
  lemma {:induction false} TextIffBehind(t: Template, k: nat, env: Env)
    requires IsTemplate(t)
    ensures Joined(ScannedPieces(t, k, env)) == Meaning(t, env) <==> RestIsWritten(t, k, env)
    decreases t
  {
    if t != [] {
      var (m, rest) := (MeaningOfItem(t[0], env), t[1..]);
      if LacksElse(t[0]) && !TestHolds(t[0], env) {
        FailsSilently(t[0], env);
        hide MeaningOfItem, IsItem, TestHolds, MeaningOfParts, Joined;
        JoinedCons((k, ""), SkippedPieces(rest, k + 1, env));
        PrefixCancels("", Joined(SkippedPieces(rest, k + 1, env)), Meaning(rest, env));
      } else {
        TextIffBehind(rest, k + 1, env);
        hide MeaningOfItem, IsItem, TestHolds, MeaningOfParts, Joined;
        JoinedCons((k, m), ScannedPieces(rest, k + 1, env));
        PrefixCancels(m, Joined(ScannedPieces(rest, k + 1, env)), Meaning(rest, env));
      }
    }
  }

  predicate NoElse(t: Template) {
    forall i :: 0 <= i < |t| ==> !HasElse(t[i])
  }

  /** Where no else follows nothing more is written. */
  lemma {:induction false} SkippedToEnd(t: Template, k: nat, env: Env)
    requires IsTemplate(t) && NoElse(t)
    ensures SkippedPieces(t, k, env) == []
    decreases t
  {
    hide IsItem;
    if t != [] {
      assert forall i :: 0 <= i < |t| - 1 ==> t[1..][i] == t[i + 1];
      SkippedToEnd(t[1..], k + 1, env);
    }
  }

  lemma NothingElseWritten(t: Template, k: nat, env: Env)
    requires IsTemplate(t) && NoElse(BehindFailing(t, env))
    ensures RestIsWritten(t, k, env) <==> Meaning(BehindFailing(t, env), env) == ""
  {
    var rest := BehindFailing(t, env);
    SkippedToEnd(rest, k + |t| - |rest|, env);
    assert Joined([]) == "";
    hide IsTemplate, Joined, SkippedPieces, Meaning, BehindFailing, NoElse;
  }
}
