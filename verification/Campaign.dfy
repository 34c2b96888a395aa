/**
 The data of a campaign schedule (internal/campaign/generator.go): designs, the replays
 each asks for, and slots on the time line. Times are whole nanoseconds.
 */
module Campaign {
  import opened Seqs

  datatype Design = Design(id: string, replays: nat, targets: seq<string>)

  datatype ReplayPair = ReplayPair(design: nat, replay: nat)

  datatype ReplaySlot = ReplaySlot(designID: string, index: nat, offset: int)

  // ----- one pair per requested replay ---------------------------------------------------

  function PairsOf(design: nat, n: nat): (ps: seq<ReplayPair>)
    ensures |ps| == n && forall i :: 0 <= i < n ==> ps[i] == ReplayPair(design, i)
  {
    seq(n, i requires 0 <= i < n => ReplayPair(design, i))
  }

  function AllPairs(designs: seq<Design>): (ps: seq<ReplayPair>)
    ensures forall p :: p in ps ==> p.design < |designs|
  {
    if designs == [] then []
    else
      var n := |designs| - 1;
      AllPairs(designs[..n]) + PairsOf(n, designs[n].replays)
  }

  // Design by design, and replay by replay within a design.
  ghost predicate InOrder(pairs: seq<ReplayPair>) {
    forall i, j :: 0 <= i < j < |pairs| ==>
      pairs[i].design < pairs[j].design || (pairs[i].design == pairs[j].design && pairs[i].replay < pairs[j].replay)
  }

  lemma {:induction false} AllPairsInOrder(designs: seq<Design>)
    ensures InOrder(AllPairs(designs))
  {
    if designs != [] {
      AllPairsInOrder(designs[..|designs| - 1]);
      var old' := AllPairs(designs[..|designs| - 1]);
      forall i, j | 0 <= i < |old'| <= j < |AllPairs(designs)|
        ensures AllPairs(designs)[i].design < AllPairs(designs)[j].design
      {
        assert old'[i] in old';
      }
    }
  }

  method BuildPairs(designs: seq<Design>) returns (pairs: seq<ReplayPair>)
    ensures pairs == AllPairs(designs) && InOrder(pairs)
  {
    AllPairsInOrder(designs);
    pairs := [];
    for di := 0 to |designs|
      invariant pairs == AllPairs(designs[..di])
    {
      for ri := 0 to designs[di].replays
        invariant pairs == AllPairs(designs[..di]) + PairsOf(di, ri)
      {
        assert PairsOf(di, ri + 1) == PairsOf(di, ri) + [ReplayPair(di, ri)];
        pairs := pairs + [ReplayPair(di, ri)];
      }
      assert designs[..di + 1][..di] == designs[..di];
    }
    assert designs[..|designs|] == designs;
  }

  // Each (design, replay) is listed exactly once.
  lemma {:induction false} AllPairsExact(designs: seq<Design>)
    ensures Distinct(AllPairs(designs))
    ensures forall d: nat, r: nat ::
              ReplayPair(d, r) in AllPairs(designs) <==> d < |designs| && r < designs[d].replays
  {
    if designs != [] {
      var n := |designs| - 1;
      AllPairsExact(designs[..n]);
      forall d: nat, r: nat
        ensures ReplayPair(d, r) in AllPairs(designs) <==> d < |designs| && r < designs[d].replays
      {
        assert ReplayPair(d, r) in PairsOf(n, designs[n].replays) <==> d == n && r < designs[n].replays by {
          if d == n && r < designs[n].replays {
            assert PairsOf(n, designs[n].replays)[r] == ReplayPair(d, r);
          }
        }
      }
      forall i, j | 0 <= i < j < |AllPairs(designs)|
        ensures AllPairs(designs)[i] != AllPairs(designs)[j]
      {
        var old' := AllPairs(designs[..n]);
        if i < |old'| <= j {
          assert old'[i] in old';
        }
      }
    }
  }

  ghost predicate IDsDistinct(designs: seq<Design>) {
    forall i, j :: 0 <= i < j < |designs| ==> designs[i].id != designs[j].id
  }

  ghost predicate InDesigns(designs: seq<Design>, pairs: seq<ReplayPair>) {
    forall i :: 0 <= i < |pairs| ==> pairs[i].design < |designs|
  }

  // Which replay of which design a slot is for, and what a schedule must hold.
  function Key(s: ReplaySlot): (string, nat) {
    (s.designID, s.index)
  }

  ghost function PairKeys(designs: seq<Design>, pairs: seq<ReplayPair>): (ks: seq<(string, nat)>)
    requires InDesigns(designs, pairs)
    ensures |ks| == |pairs|
    ensures forall i :: 0 <= i < |pairs| ==> ks[i] == (designs[pairs[i].design].id, pairs[i].replay)
  {
    seq(|pairs|, i requires 0 <= i < |pairs| => (designs[pairs[i].design].id, pairs[i].replay))
  }

  // Exactly the replays of pairs, each once.
  ghost predicate Holds(slots: seq<ReplaySlot>, designs: seq<Design>, pairs: seq<ReplayPair>)
    requires InDesigns(designs, pairs)
  {
    multiset(Map(Key, slots)) == multiset(PairKeys(designs, pairs))
  }

  lemma HoldsIsDistinct(slots: seq<ReplaySlot>, designs: seq<Design>, pairs: seq<ReplayPair>)
    requires InDesigns(designs, pairs) && IDsDistinct(designs) && Distinct(pairs) && Holds(slots, designs, pairs)
    ensures Distinct(slots)
  {
    var ks := PairKeys(designs, pairs);
    forall i, j | 0 <= i < j < |ks|
      ensures ks[i] != ks[j]
    {
      assert pairs[i] != pairs[j];
    }
    SameIsDistinct(ks, Map(Key, slots));
    assert forall i :: 0 <= i < |slots| ==> Map(Key, slots)[i] == Key(slots[i]);
  }

  // Shuffled pairs ask for the same replays.
  lemma PairKeysShuffled(designs: seq<Design>, pairs: seq<ReplayPair>, others: seq<ReplayPair>)
    requires InDesigns(designs, pairs) && InDesigns(designs, others) && multiset(pairs) == multiset(others)
    ensures multiset(PairKeys(designs, pairs)) == multiset(PairKeys(designs, others))
  {
    var key := (p: ReplayPair) => if p.design < |designs| then (designs[p.design].id, p.replay) else ("", 0);
    MapSame(key, pairs, others);
    assert PairKeys(designs, pairs) == Map(key, pairs);
    assert PairKeys(designs, others) == Map(key, others);
  }

  // ----- sorting by offset ----------------------------------------------------------------

  ghost predicate Sorted(slots: seq<ReplaySlot>) {
    forall i, j :: 0 <= i < j < |slots| ==> slots[i].offset <= slots[j].offset
  }

  ghost predicate SortOf(out: seq<ReplaySlot>, slots: seq<ReplaySlot>) {
    Sorted(out) && multiset(out) == multiset(slots)
  }

  function InsertSlot(s: ReplaySlot, slots: seq<ReplaySlot>): seq<ReplaySlot> {
    if slots == [] || slots[|slots| - 1].offset <= s.offset then slots + [s]
    else
      var n := |slots| - 1;
      InsertSlot(s, slots[..n]) + [slots[n]]
  }

  lemma SortedSnoc(out: seq<ReplaySlot>, slots: seq<ReplaySlot>, last: ReplaySlot)
    requires SortOf(out, slots) && forall i :: 0 <= i < |slots| ==> slots[i].offset <= last.offset
    ensures SortOf(out + [last], slots + [last])
  {
    forall i | 0 <= i < |out|
      ensures out[i].offset <= last.offset
    {
      assert out[i] in multiset(slots);
    }
  }

  lemma SortedInit(slots: seq<ReplaySlot>, n: nat)
    requires Sorted(slots) && n + 1 == |slots|
    ensures Sorted(slots[..n]) && slots == slots[..n] + [slots[n]]
    ensures forall i :: 0 <= i < n ==> slots[..n][i].offset <= slots[n].offset
  {
  }

  lemma {:induction false} InsertKeeps(s: ReplaySlot, slots: seq<ReplaySlot>)
    requires Sorted(slots)
    ensures SortOf(InsertSlot(s, slots), slots + [s])
  {
    if slots == [] || slots[|slots| - 1].offset <= s.offset {
      assert SortOf(slots + [s], slots + [s]);
    } else {
      hide Sorted;
      var n := |slots| - 1;
      var rest, last := slots[..n], slots[n];
      SortedInit(slots, n);
      InsertKeeps(s, rest);
      SortedSnoc(InsertSlot(s, rest), rest + [s], last);
      SwapLast(rest, s, last);
    }
  }

  lemma SwapLast<T>(rest: seq<T>, x: T, y: T)
    ensures multiset((rest + [x]) + [y]) == multiset((rest + [y]) + [x])
  {
  }

  // sort.SliceStable on offsets: equal offsets keep their order.
  function StableSort(slots: seq<ReplaySlot>): (r: seq<ReplaySlot>)
    ensures SortOf(r, slots)
  {
    if slots == [] then []
    else
      var n := |slots| - 1;
      var sorted := StableSort(slots[..n]);
      InsertKeeps(slots[n], sorted);
      assert slots == slots[..n] + [slots[n]];
      InsertSlot(slots[n], sorted)
  }

  // The slots at one offset, in order.
  function AtOffset(slots: seq<ReplaySlot>, o: int): seq<ReplaySlot> {
    if slots == [] then []
    else
      var n := |slots| - 1;
      AtOffset(slots[..n], o) + if slots[n].offset == o then [slots[n]] else []
  }

  lemma AtOffsetSnoc(slots: seq<ReplaySlot>, s: ReplaySlot, o: int)
    ensures AtOffset(slots + [s], o) == AtOffset(slots, o) + if s.offset == o then [s] else []
  {
    assert (slots + [s])[..|slots|] == slots;
  }

  lemma InsertBefore(s: ReplaySlot, slots: seq<ReplaySlot>)
    requires slots != [] && slots[|slots| - 1].offset > s.offset
    ensures InsertSlot(s, slots) == InsertSlot(s, slots[..|slots| - 1]) + [slots[|slots| - 1]]
  {
  }

  lemma InsertBehind(s: ReplaySlot, slots: seq<ReplaySlot>)
    requires slots == [] || slots[|slots| - 1].offset <= s.offset
    ensures InsertSlot(s, slots) == slots + [s]
  {
  }

  // Slots with different offsets can change places.
  lemma StableStep(rest: seq<ReplaySlot>, s: ReplaySlot, last: ReplaySlot, inserted: seq<ReplaySlot>, o: int)
    requires AtOffset(inserted, o) == AtOffset(rest + [s], o) && s.offset != last.offset
    ensures AtOffset(inserted + [last], o) == AtOffset((rest + [last]) + [s], o)
  {
    hide AtOffset;
    AtOffsetSnoc(rest, s, o);
    AtOffsetSnoc(inserted, last, o);
    AtOffsetSnoc(rest, last, o);
    AtOffsetSnoc(rest + [last], s, o);
  }

  lemma {:induction false} InsertIsStable(s: ReplaySlot, slots: seq<ReplaySlot>, o: int)
    ensures AtOffset(InsertSlot(s, slots), o) == AtOffset(slots + [s], o)
  {
    hide AtOffset, InsertSlot;
    if slots != [] && slots[|slots| - 1].offset > s.offset {
      var rest, last := slots[..|slots| - 1], slots[|slots| - 1];
      InsertBefore(s, slots);
      InsertIsStable(s, rest, o);
      StableStep(rest, s, last, InsertSlot(s, rest), o);
      assert slots == rest + [last];
    } else {
      InsertBehind(s, slots);
    }
  }

  // Slots with one offset come out in the order in which they went in.
  lemma {:induction false} StableSortIsStable(slots: seq<ReplaySlot>, o: int)
    ensures AtOffset(StableSort(slots), o) == AtOffset(slots, o)
  {
    if slots != [] {
      var n := |slots| - 1;
      StableSortIsStable(slots[..n], o);
      InsertIsStable(slots[n], StableSort(slots[..n]), o);
      AtOffsetSnoc(StableSort(slots[..n]), slots[n], o);
    }
  }

  // sort.Slice on offsets promises no order among equal offsets: callers know the contract only.
  method SortSlice(slots: seq<ReplaySlot>) returns (out: seq<ReplaySlot>)
    ensures SortOf(out, slots)
  {
    out := StableSort(slots);
  }

  lemma SortHolds(out: seq<ReplaySlot>, slots: seq<ReplaySlot>, designs: seq<Design>, pairs: seq<ReplayPair>)
    requires InDesigns(designs, pairs) && Holds(slots, designs, pairs) && SortOf(out, slots)
    ensures Holds(out, designs, pairs)
  {
    MapSame(Key, out, slots);
  }

  ghost predicate Increasing(slots: seq<ReplaySlot>) {
    forall i, j :: 0 <= i < j < |slots| ==> slots[i].offset < slots[j].offset
  }

  lemma SortStartsSame(out: seq<ReplaySlot>, slots: seq<ReplaySlot>)
    requires SortOf(out, slots) && Increasing(slots) && slots != []
    ensures out != [] && out[0] == slots[0]
  {
    var i := FirstOccurs(slots, out);
    var j := FirstOccurs(out, slots);
    assert out[0].offset <= out[i].offset == slots[0].offset;
    assert slots[j] == out[0];
  }

  // A strictly increasing sequence has no other sort than itself.
  lemma {:induction false} SortOfIncreasing(out: seq<ReplaySlot>, slots: seq<ReplaySlot>)
    requires SortOf(out, slots) && Increasing(slots)
    ensures out == slots
  {
    assert |multiset(out)| == |out| && |multiset(slots)| == |slots|;
    if slots != [] {
      SortStartsSame(out, slots);
      SortedRest(out, slots);
      SortOfIncreasing(out[1..], slots[1..]);
      assert out == [out[0]] + out[1..] && slots == [slots[0]] + slots[1..];
    }
  }

  lemma SortedRest(out: seq<ReplaySlot>, slots: seq<ReplaySlot>)
    requires SortOf(out, slots) && out != [] && slots != [] && out[0] == slots[0]
    ensures SortOf(out[1..], slots[1..])
  {
    CutFirst(out, slots);
  }
}
