/** The record index of a table: a compact, 0xFF-terminated list of data slots, and what each
    single byte write of an insert or a delete leaves in it (src/RecordStore.c). */
module SlotIndex {
  import opened MachineInts

  /** NO_RECORD_INDEX */
  const NO_SLOT: uint8 := 0xFF

  /** The entries before the first 0xFF, as a reopening store reads them. */
  function Live(index: seq<uint8>): (s: seq<uint8>)
    ensures |s| <= |index| && s == index[..|s|]
    ensures |s| < |index| ==> index[|s|] == NO_SLOT
    ensures NO_SLOT !in s
  {
    if index == [] || index[0] == NO_SLOT then [] else [index[0]] + Live(index[1..])
  }

  predicate Distinct(s: seq<uint8>) {
    forall i, j :: 0 <= i < j < |s| ==> s[i] != s[j]
  }

  predicate Below(s: seq<uint8>, m: nat) {
    forall i :: 0 <= i < |s| ==> s[i] < m
  }

  predicate AllFree(s: seq<uint8>) {
    forall i :: 0 <= i < |s| ==> s[i] == NO_SLOT
  }

  /** n distinct slots of the data area, then only 0xFF. */
  predicate Compact(index: seq<uint8>, n: nat) {
    && n <= |index| <= 250
    && Below(index[..n], |index|)
    && Distinct(index[..n])
    && AllFree(index[n..])
  }

  lemma {:induction false} LiveIs(index: seq<uint8>, n: nat)
    requires n <= |index| && NO_SLOT !in index[..n] && (n < |index| ==> index[n] == NO_SLOT)
    ensures Live(index) == index[..n]
  {
    if n > 0 {
      assert index[..n][0] == index[0] && index[..n][1..] == index[1..][..n - 1];
      LiveIs(index[1..], n - 1);
    }
  }

  lemma LiveOfCompact(index: seq<uint8>, n: nat)
    requires Compact(index, n)
    ensures Live(index) == index[..n]
  {
    assert n < |index| ==> index[n] == index[n..][0] == NO_SLOT;
    LiveIs(index, n);
  }

  // ---- a free slot exists ----

  function SlotSet(s: seq<uint8>): set<nat> {
    set i | 0 <= i < |s| :: s[i]
  }

  function Range(m: nat): (r: set<nat>)
    ensures |r| == m
    ensures forall x: nat :: x in r <==> x < m
  {
    if m == 0 then {} else Range(m - 1) + {m - 1}
  }

  lemma {:induction false} SlotSetSize(s: seq<uint8>)
    ensures |SlotSet(s)| <= |s|
  {
    if s == [] {
      assert SlotSet(s) == {};
    } else {
      var init, last := s[..|s| - 1], s[|s| - 1];
      SlotSetSize(init);
      assert SlotSet(s) == SlotSet(init) + {last} by {
        forall x | x in SlotSet(s)
          ensures x in SlotSet(init) + {last}
        {
          var i :| 0 <= i < |s| && s[i] == x;
          assert i < |init| ==> init[i] == x;
        }
        forall x | x in SlotSet(init)
          ensures x in SlotSet(s)
        {
          var i :| 0 <= i < |init| && init[i] == x;
          assert s[i] == x;
        }
      }
    }
  }

  /** Pigeonhole: fewer records than slots leave a slot free. */
  lemma FreeSlotExists(s: seq<uint8>, m: nat)
    requires |s| < m
    ensures exists slot: nat :: slot < m && slot !in SlotSet(s)
  {
    SlotSetSize(s);
    if Range(m) <= SlotSet(s) {
      Cardinality(Range(m), SlotSet(s));
      assert false;
    }
    var slot :| slot in Range(m) && slot !in SlotSet(s);
  }

  lemma Cardinality(a: set<nat>, b: set<nat>)
    requires a <= b
    ensures |a| <= |b|
  {
    assert b == a + (b - a);
  }

  // ---- insert and delete on the index, and every state in between ----

  function Inserted(index: seq<uint8>, n: nat, at: nat, slot: uint8): (r: seq<uint8>)
    requires at <= n < |index|
    ensures |r| == |index|
  {
    index[..at] + [slot] + index[at..n] + index[n + 1..]
  }

  function Removed(index: seq<uint8>, n: nat, at: nat): (r: seq<uint8>)
    requires at < n <= |index|
    ensures |r| == |index|
  {
    index[..at] + index[at + 1..n] + [NO_SLOT] + index[n..]
  }

  /** After k byte writes of making room: the last k entries have moved up by one. */
  function MakeRoomCut(index: seq<uint8>, n: nat, k: nat): (r: seq<uint8>)
    requires k <= n < |index|
    ensures |r| == |index|
  {
    index[..n - k + 1] + index[n - k..n] + index[n + 1..]
  }

  /** After k byte writes of closing the gap at `at`: k entries have moved down by one. */
  function CloseGapCut(index: seq<uint8>, n: nat, at: nat, k: nat): (r: seq<uint8>)
    requires at < n <= |index| && k <= n - at
    ensures |r| == |index|
  {
    index[..at] + (index + [NO_SLOT])[at + 1..at + k + 1] + index[at + k..]
  }

  /** s is base, possibly with one entry standing twice in a row. */
  ghost predicate OneAdjacentCopy<T>(s: seq<T>, base: seq<T>) {
    s == base || exists j :: 0 <= j < |base| && s == base[..j + 1] + base[j..]
  }

  /** s with entry `at` taken out. */
  function Without<T>(s: seq<T>, at: nat): (r: seq<T>)
    requires at < |s|
    ensures |r| == |s| - 1
  {
    s[..at] + s[at + 1..]
  }

  /** s with x put before entry `at`. */
  function With<T>(s: seq<T>, at: nat, x: T): (r: seq<T>)
    requires at <= |s|
    ensures |r| == |s| + 1
  {
    s[..at] + [x] + s[at..]
  }

  /** A power cut while room is made for a record loses no record. */
  lemma MakeRoomCutIsSafe(index: seq<uint8>, n: nat, k: nat)
    requires Compact(index, n) && k <= n < |index|
    ensures OneAdjacentCopy(Live(MakeRoomCut(index, n, k)), index[..n])
  {
    var cut := MakeRoomCut(index, n, k);
    assert AllFree(cut[n + 1..]) by {
      assert cut[n + 1..] == index[n..][1..];
    }
    assert index[n] == index[n..][0];
    if k == 0 {
      assert cut == index;
      LiveOfCompact(index, n);
    } else {
      var j := n - k;
      assert cut[..n + 1] == index[..n][..j + 1] + index[..n][j..];
      assert n + 1 < |index| ==> cut[n + 1] == cut[n + 1..][0];
      LiveIs(cut, n + 1);
    }
  }

  /** The write that ends an insert. */
  lemma InsertedIsCompact(index: seq<uint8>, n: nat, at: nat, slot: uint8)
    requires Compact(index, n) && at <= n < |index| && slot < |index| && slot !in SlotSet(index[..n])
    ensures Compact(Inserted(index, n, at, slot), n + 1)
    ensures Inserted(index, n, at, slot)[..n + 1] == With(index[..n], at, slot)
  {
    var r, s := Inserted(index, n, at, slot), With(index[..n], at, slot);
    assert r[..n + 1] == s;
    assert r[n + 1..] == index[n..][1..];
    forall i, j | 0 <= i < j < |s|
      ensures s[i] != s[j]
    {
      var i', j' := if i < at then i else i - 1, if j < at then j else j - 1;
      if i == at {
        assert index[..n][j'] in SlotSet(index[..n]);
      } else if j == at {
        assert index[..n][i'] in SlotSet(index[..n]);
      } else {
        assert index[..n][i'] != index[..n][j'];
      }
    }
    forall i | 0 <= i < |s|
      ensures s[i] < |index|
    {
      assert i != at ==> s[i] == index[..n][if i < at then i else i - 1];
    }
  }

  /** Between the first and the last write every entry behind the gap is there, the last moved one twice. */
  lemma PartlyClosed(index: seq<uint8>, n: nat, at: nat, k: nat)
    requires Compact(index, n) && at < n && 0 < k < n - at
    ensures var (cut, rest, j) := (CloseGapCut(index, n, at, k), Without(index[..n], at), at + k - 1);
            && j < |rest| && cut[..n] == rest[..j + 1] + rest[j..]
            && NO_SLOT !in cut[..n] && (n < |index| ==> cut[n] == NO_SLOT)
  {
    var cut, rest, j := CloseGapCut(index, n, at, k), Without(index[..n], at), at + k - 1;
    LiveOfCompact(index, n);
    assert n < |index| ==> index[n] == index[n..][0];
    assert NO_SLOT !in index[..n];
    EntryWhileClosing(index, n, at, k);
    assert forall i :: 0 <= i < |rest| ==> rest[i] == index[if i < at then i else i + 1];
    hide CloseGapCut, Without, Compact;
    assert |rest[..j + 1] + rest[j..]| == n;
    assert forall i :: 0 <= i < n ==> cut[..n][i] == (rest[..j + 1] + rest[j..])[i];
  }

  lemma EntryWhileClosing(index: seq<uint8>, n: nat, at: nat, k: nat)
    requires at < n <= |index| && k < n - at
    ensures forall i :: 0 <= i < |index| ==>
              CloseGapCut(index, n, at, k)[i] == index[if at <= i < at + k then i + 1 else i]
  {
  }

  /** A power cut while a gap is closed loses no other record. */
  lemma CloseGapCutIsSafe(index: seq<uint8>, n: nat, at: nat, k: nat)
    requires Compact(index, n) && at < n && k <= n - at
    ensures k == 0 ==> Live(CloseGapCut(index, n, at, k)) == index[..n]
    ensures k > 0 ==> OneAdjacentCopy(Live(CloseGapCut(index, n, at, k)), Without(index[..n], at))
  {
    var cut, rest := CloseGapCut(index, n, at, k), Without(index[..n], at);
    LiveOfCompact(index, n);
    if k == 0 {
      assert cut == index;
    } else if k < n - at {
      PartlyClosed(index, n, at, k);
      hide CloseGapCut, Without;
      LiveIs(cut, n);
    } else {
      CloseGapDone(index, n, at);
      RemovedIsCompact(index, n, at);
      LiveOfCompact(cut, n - 1);
    }
  }

  lemma CloseGapDone(index: seq<uint8>, n: nat, at: nat)
    requires Compact(index, n) && at < n
    ensures CloseGapCut(index, n, at, n - at) == Removed(index, n, at)
  {
    var longer := index + [NO_SLOT];
    assert longer[n] == NO_SLOT by {
      assert n < |index| ==> longer[n] == index[n..][0];
    }
    assert longer[at + 1..n + 1] == index[at + 1..n] + [NO_SLOT];
  }

  lemma RemovedIsCompact(index: seq<uint8>, n: nat, at: nat)
    requires Compact(index, n) && at < n
    ensures Compact(Removed(index, n, at), n - 1)
    ensures Removed(index, n, at)[..n - 1] == Without(index[..n], at)
    ensures SlotSet(Without(index[..n], at)) == SlotSet(index[..n]) - {index[at]}
  {
    var r, s := Removed(index, n, at), index[..n];
    var w := Without(s, at);
    assert r[..n - 1] == w;
    assert r[n - 1..] == [NO_SLOT] + index[n..];
    assert forall i :: 0 <= i < |w| ==> w[i] == s[if i < at then i else i + 1];
    forall x | x in SlotSet(s) && x != s[at]
      ensures x in SlotSet(w)
    {
      var i :| 0 <= i < |s| && s[i] == x;
      assert w[if i < at then i else i - 1] == x;
    }
  }
}
