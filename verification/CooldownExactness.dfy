/**
 When the cooldown layout succeeds: always soundly, exactly when no target is overfull
 and no two replays of a target got the same position, and, if the target sets dominate
 each other, exactly when any schedule at all exists.
 */
module CooldownExactness {
  import opened Arith
  import opened Seqs
  import opened Campaign
  import opened CooldownCheck
  import opened CooldownLayout
  import opened CooldownSchedule

  // What generateSchedule passes down: designs and pairs without repetition, targets of a
  // design without repetition, positive spans.
  ghost predicate Regular(designs: seq<Design>, pairs: seq<ReplayPair>, duration: int, cooldown: int) {
    && InDesigns(designs, pairs) && IDsDistinct(designs) && Distinct(pairs)
    && (forall i :: 0 <= i < |designs| ==> Distinct(designs[i].targets))
    && duration > 0 && cooldown > 0
  }

  ghost predicate Common(ts: seq<seq<string>>, i: nat, j: nat)
    requires i < |ts| && j < |ts|
  {
    exists t :: t in ts[i] && t in ts[j]
  }

  ghost predicate PositionsDiffer(ts: seq<seq<string>>) {
    forall i, j :: 0 <= i < j < |ts| && Common(ts, i, j) ==> Position(ts, i) != Position(ts, j)
  }

  // An assignment of offsets that keeps replays of each target apart.
  ghost predicate Fits(ts: seq<seq<string>>, o: seq<int>, duration: int, cooldown: int) {
    && |o| == |ts|
    && (forall i :: 0 <= i < |o| ==> 0 <= o[i] < duration)
    && (forall i, j :: 0 <= i < j < |ts| && Common(ts, i, j) ==> o[i] - o[j] >= cooldown || o[j] - o[i] >= cooldown)
  }

  ghost predicate Feasible(ts: seq<seq<string>>, duration: int, cooldown: int) {
    exists o :: Fits(ts, o, duration, cooldown)
  }

  // ----- positions and uses -------------------------------------------------------------------

  lemma {:induction false} UsesGrow(ts: seq<seq<string>>, i: nat, j: nat, t: string)
    requires i < j <= |ts| && t in ts[i]
    ensures Uses(ts[..i], t) + 1 <= Uses(ts[..j], t)
  {
    assert ts[..j] == ts[..j - 1] + [ts[j - 1]];
    UsesSnoc(ts[..j - 1], ts[j - 1], t);
    if i < j - 1 {
      UsesGrow(ts, i, j - 1, t);
    } else {
      assert t in multiset(ts[i]);
    }
  }

  // Without an overfull target every position fits in the campaign.
  lemma PositionFits(ts: seq<seq<string>>, i: nat, duration: int, cooldown: int)
    requires i < |ts| && duration > 0 && cooldown > 0
    requires forall t :: !TooMany(ts, t, duration, cooldown)
    ensures 0 <= Position(ts, i) * cooldown < duration
  {
    MulNonNegative(Position(ts, i), cooldown);
    if ts[i] != [] {
      var t := MaxUsesReached(ts[i], ts[..i]);
      UsesGrow(ts, i, |ts|, t);
      assert ts[..|ts|] == ts;
      assert !TooMany(ts, t, duration, cooldown);
      MulMonotone(Position(ts, i), Uses(ts, t) - 1, cooldown);
    }
  }

  lemma {:induction false} LatestFits(ts: seq<seq<string>>, k: nat, duration: int, cooldown: int)
    requires k <= |ts| && duration > 0 && cooldown > 0
    requires forall t :: !TooMany(ts, t, duration, cooldown)
    ensures 0 <= Latest(ts, k, cooldown) < duration
  {
    if k > 0 {
      LatestFits(ts, k - 1, duration, cooldown);
      PositionFits(ts, k - 1, duration, cooldown);
    }
  }

  // ----- stretching -----------------------------------------------------------------------------

  lemma StretchInRange(o: int, latest: int, duration: int)
    requires 0 <= o <= latest < duration
    ensures 0 <= Stretch(o, latest, duration) < duration
  {
    if latest > 0 && duration - 1 > latest {
      MulNonNegative(o, duration - 1);
      MulMonotone(o, latest, duration - 1);
      DivLower(o * (duration - 1), latest, 0);
      DivUpper(o * (duration - 1), latest, duration - 1);
    }
  }

  // Truncating after stretching loses no part of a gap.
  lemma StretchKeepsGap(x: int, y: int, latest: int, duration: int)
    requires 0 <= x <= y <= latest < duration
    ensures Stretch(y, latest, duration) - Stretch(x, latest, duration) >= y - x
  {
    if latest > 0 && duration - 1 > latest {
      var s := duration - 1;
      var q := (x * s) / latest;
      assert q * latest <= x * s;
      MulMonotone(latest, s, y - x);
      assert (y - x) * s == y * s - x * s;
      assert (q + (y - x)) * latest == q * latest + (y - x) * latest;
      DivLower(y * s, latest, q + (y - x));
    }
  }

  // ----- the final check, in terms of positions -----------------------------------------------------

  lemma LayoutHolds(designs: seq<Design>, pairs: seq<ReplayPair>, duration: int, cooldown: int)
    requires Regular(designs, pairs, duration, cooldown)
    ensures Holds(Layout(designs, pairs, duration, cooldown), designs, pairs)
    ensures Distinct(Layout(designs, pairs, duration, cooldown))
  {
    assert Map(Key, Layout(designs, pairs, duration, cooldown)) == PairKeys(designs, pairs);
    HoldsIsDistinct(Layout(designs, pairs, duration, cooldown), designs, pairs);
  }

  lemma TargetsFound(designs: seq<Design>, pairs: seq<ReplayPair>, i: nat, offset: int)
    requires InDesigns(designs, pairs) && IDsDistinct(designs) && i < |pairs|
    ensures TargetsOf(ByID(designs), SlotAt(designs, pairs, i, offset)) == TargetLists(designs, pairs)[i]
  {
    ByIDFinds(designs, pairs[i].design);
  }

  lemma {:induction false} ByIDTargetsDistinct(designs: seq<Design>)
    requires forall i :: 0 <= i < |designs| ==> Distinct(designs[i].targets)
    ensures TargetsDistinct(ByID(designs))
  {
    if designs != [] {
      ByIDTargetsDistinct(designs[..|designs| - 1]);
    }
  }

  lemma OffsetGap(ts: seq<seq<string>>, i: nat, j: nat, duration: int, cooldown: int)
    requires i < |ts| && j < |ts| && duration > 0 && cooldown > 0
    requires forall t :: !TooMany(ts, t, duration, cooldown)
    ensures var x, y := FinalOffset(ts, i, duration, cooldown), FinalOffset(ts, j, duration, cooldown);
            0 <= x < duration
            && (Position(ts, i) < Position(ts, j) ==> y - x >= cooldown)
            && (Position(ts, i) == Position(ts, j) ==> x == y)
  {
    var latest := Latest(ts, |ts|, cooldown);
    LatestFits(ts, |ts|, duration, cooldown);
    LatestCovers(ts, |ts|, i, cooldown);
    LatestCovers(ts, |ts|, j, cooldown);
    PositionFits(ts, i, duration, cooldown);
    StretchInRange(Position(ts, i) * cooldown, latest, duration);
    if Position(ts, i) < Position(ts, j) {
      MulStep(Position(ts, i), Position(ts, j), cooldown);
      StretchKeepsGap(Position(ts, i) * cooldown, Position(ts, j) * cooldown, latest, duration);
    }
  }

  lemma LayoutSpaced(designs: seq<Design>, pairs: seq<ReplayPair>, duration: int, cooldown: int)
    requires Regular(designs, pairs, duration, cooldown)
    requires forall t :: !TooMany(TargetLists(designs, pairs), t, duration, cooldown)
    ensures Spaced(Layout(designs, pairs, duration, cooldown), ByID(designs), cooldown)
       <==> PositionsDiffer(TargetLists(designs, pairs))
  {
    var ts, dm, slots := TargetLists(designs, pairs), ByID(designs), Layout(designs, pairs, duration, cooldown);
    LayoutHolds(designs, pairs, duration, cooldown);
    forall i | 0 <= i < |slots|
      ensures TargetsOf(dm, slots[i]) == ts[i]
    {
      TargetsFound(designs, pairs, i, slots[i].offset);
    }
    forall i, j | 0 <= i < |slots| && 0 <= j < |slots|
      ensures PairAgrees(slots, dm, cooldown, ts, i, j)
    {
      OffsetGap(ts, i, j, duration, cooldown);
    }
    SpacedMeansDiffer(slots, dm, cooldown, ts);
    DifferMeansSpaced(slots, dm, cooldown, ts);
  }

  // Slots i and j share a target as their replays do, and are as far apart as their
  // positions say.
  ghost predicate PairAgrees(slots: seq<ReplaySlot>, dm: DesignMap, cooldown: int, ts: seq<seq<string>>, i: nat, j: nat)
    requires |slots| == |ts| && i < |ts| && j < |ts|
  {
    && (Share(dm, slots[i], slots[j]) <==> Common(ts, i, j))
    && (Position(ts, i) < Position(ts, j) ==> slots[j].offset - slots[i].offset >= cooldown)
    && (Position(ts, i) == Position(ts, j) ==> slots[i].offset == slots[j].offset)
  }

  lemma SpacedMeansDiffer(slots: seq<ReplaySlot>, dm: DesignMap, cooldown: int, ts: seq<seq<string>>)
    requires |slots| == |ts| && Distinct(slots) && cooldown > 0
    requires forall i, j :: 0 <= i < |slots| && 0 <= j < |slots| ==> PairAgrees(slots, dm, cooldown, ts, i, j)
    ensures Spaced(slots, dm, cooldown) ==> PositionsDiffer(ts)
  {
    if Spaced(slots, dm, cooldown) {
      forall i, j | 0 <= i < j < |ts| && Common(ts, i, j)
        ensures Position(ts, i) != Position(ts, j)
      {
        assert PairAgrees(slots, dm, cooldown, ts, i, j);
        assert slots[i] in slots && slots[j] in slots && slots[i] != slots[j];
      }
    }
  }

  lemma DifferMeansSpaced(slots: seq<ReplaySlot>, dm: DesignMap, cooldown: int, ts: seq<seq<string>>)
    requires |slots| == |ts| && Distinct(slots) && cooldown > 0
    requires forall i, j :: 0 <= i < |slots| && 0 <= j < |slots| ==> PairAgrees(slots, dm, cooldown, ts, i, j)
    ensures PositionsDiffer(ts) ==> Spaced(slots, dm, cooldown)
  {
    if PositionsDiffer(ts) {
      forall x, y | x in slots && y in slots && x != y && Share(dm, x, y)
        ensures x.offset - y.offset >= cooldown || y.offset - x.offset >= cooldown
      {
        var i, j :| 0 <= i < |slots| && 0 <= j < |slots| && slots[i] == x && slots[j] == y;
        assert PairAgrees(slots, dm, cooldown, ts, i, j) && PairAgrees(slots, dm, cooldown, ts, j, i);
        assert Common(ts, i, j) && Common(ts, j, i);
        assert Position(ts, i) != Position(ts, j);
      }
    }
  }

  // The layout is accepted exactly when no target is overfull and replays with a common
  // target have different positions.
  lemma SucceedsExactly(designs: seq<Design>, pairs: seq<ReplayPair>, duration: int, cooldown: int)
    requires Regular(designs, pairs, duration, cooldown)
    ensures Succeeds(designs, pairs, duration, cooldown)
       <==> (forall t :: !TooMany(TargetLists(designs, pairs), t, duration, cooldown))
            && PositionsDiffer(TargetLists(designs, pairs))
  {
    var ts := TargetLists(designs, pairs);
    if forall t :: !TooMany(ts, t, duration, cooldown) {
      var slots, dm := Layout(designs, pairs, duration, cooldown), ByID(designs);
      var sorted := StableSort(slots);
      LayoutHolds(designs, pairs, duration, cooldown);
      SameIsDistinct(slots, sorted);
      ByIDTargetsDistinct(designs);
      RespectsMeansSpaced(sorted, dm, cooldown);
      LayoutSpaced(designs, pairs, duration, cooldown);
      if Spaced(slots, dm, cooldown) {
        SpacedOrderFree(slots, sorted, dm, cooldown);
      }
      if Spaced(sorted, dm, cooldown) {
        SpacedOrderFree(sorted, slots, dm, cooldown);
      }
    }
  }

  // A schedule the layout returns is sorted, lies in the campaign, holds each replay once,
  // and keeps all pairs of slots on a common target apart.
  lemma SucceedsSoundly(designs: seq<Design>, pairs: seq<ReplayPair>, duration: int, cooldown: int)
    requires Regular(designs, pairs, duration, cooldown) && Succeeds(designs, pairs, duration, cooldown)
    ensures var slots := StableSort(Layout(designs, pairs, duration, cooldown));
            Sorted(slots) && Holds(slots, designs, pairs) && Spaced(slots, ByID(designs), cooldown)
            && forall i :: 0 <= i < |slots| ==> 0 <= slots[i].offset < duration
  {
    var ts, layout := TargetLists(designs, pairs), Layout(designs, pairs, duration, cooldown);
    var slots := StableSort(layout);
    LayoutHolds(designs, pairs, duration, cooldown);
    SortHolds(slots, layout, designs, pairs);
    SameIsDistinct(layout, slots);
    ByIDTargetsDistinct(designs);
    RespectsMeansSpaced(slots, ByID(designs), cooldown);
    forall i | 0 <= i < |slots|
      ensures 0 <= slots[i].offset < duration
    {
      assert slots[i] in multiset(slots);
      assert slots[i] in layout;
      var k :| 0 <= k < |layout| && layout[k] == slots[i];
      OffsetGap(ts, k, k, duration, cooldown);
    }
  }

  // ----- feasibility: the pigeonhole -----------------------------------------------------------------

  ghost predicate Apart(vs: seq<int>, cooldown: int) {
    forall i, j :: 0 <= i < j < |vs| ==> vs[i] - vs[j] >= cooldown || vs[j] - vs[i] >= cooldown
  }

  lemma {:induction false} MaxIndex(vs: seq<int>) returns (m: nat)
    requires vs != []
    ensures m < |vs| && forall i :: 0 <= i < |vs| ==> vs[i] <= vs[m]
  {
    if |vs| == 1 {
      m := 0;
    } else {
      var k := MaxIndex(vs[1..]);
      m := if vs[0] > vs[1..][k] then 0 else k + 1;
    }
  }

  lemma WithoutMax(vs: seq<int>, cooldown: int, lo: int, m: nat)
    requires cooldown > 0 && Apart(vs, cooldown) && (forall i :: 0 <= i < |vs| ==> lo <= vs[i])
    requires m < |vs| && forall i :: 0 <= i < |vs| ==> vs[i] <= vs[m]
    ensures var rest := vs[..m] + vs[m + 1..];
            Apart(rest, cooldown) && forall i :: 0 <= i < |rest| ==> lo <= rest[i] <= vs[m] - cooldown
  {
    var rest := vs[..m] + vs[m + 1..];
    forall i | 0 <= i < |rest|
      ensures lo <= rest[i] <= vs[m] - cooldown
    {
      var k := if i < m then i else i + 1;
      assert rest[i] == vs[k];
    }
  }

  // k values that are cooldown apart span at least k - 1 cooldowns.
  lemma {:induction false} ApartSpans(vs: seq<int>, cooldown: int, lo: int, hi: int)
    requires vs != [] && cooldown > 0 && Apart(vs, cooldown) && forall i :: 0 <= i < |vs| ==> lo <= vs[i] <= hi
    ensures (|vs| - 1) * cooldown <= hi - lo
    decreases |vs|
  {
    assert lo <= vs[0] <= hi;
    if |vs| > 1 {
      var m := MaxIndex(vs);
      WithoutMax(vs, cooldown, lo, m);
      ApartSpans(vs[..m] + vs[m + 1..], cooldown, lo, vs[m] - cooldown);
      MulPred(|vs| - 1, cooldown);
    }
  }

  // The offsets of the replays that use target t.
  ghost function OffsetsOf(ts: seq<seq<string>>, o: seq<int>, t: string): (vs: seq<int>)
    requires |o| == |ts|
    ensures forall v :: v in vs ==> exists i :: 0 <= i < |ts| && t in ts[i] && o[i] == v
  {
    if ts == [] then []
    else
      var n := |ts| - 1;
      var vs := OffsetsOf(ts[..n], o[..n], t);
      assert forall i :: 0 <= i < n ==> ts[..n][i] == ts[i] && o[..n][i] == o[i];
      if t in ts[n] then vs + [o[n]] else vs
  }

  lemma {:induction false} OffsetsOfApart(ts: seq<seq<string>>, o: seq<int>, t: string, duration: int, cooldown: int)
    requires Fits(ts, o, duration, cooldown) && forall i :: 0 <= i < |ts| ==> Distinct(ts[i])
    ensures var vs := OffsetsOf(ts, o, t);
            |vs| == Uses(ts, t) && Apart(vs, cooldown) && forall i :: 0 <= i < |vs| ==> 0 <= vs[i] < duration
  {
    if ts != [] {
      var n := |ts| - 1;
      FitsPrefix(ts, o, duration, cooldown);
      OffsetsOfApart(ts[..n], o[..n], t, duration, cooldown);
      DistinctCount(ts[n], t);
      if t in ts[n] {
        var vs := OffsetsOf(ts[..n], o[..n], t);
        forall k | 0 <= k < |vs|
          ensures vs[k] - o[n] >= cooldown || o[n] - vs[k] >= cooldown
        {
          assert vs[k] in vs;
          var i :| 0 <= i < n && t in ts[..n][i] && o[..n][i] == vs[k];
          assert Common(ts, i, n);
        }
      }
    }
  }

  lemma FitsPrefix(ts: seq<seq<string>>, o: seq<int>, duration: int, cooldown: int)
    requires Fits(ts, o, duration, cooldown) && ts != []
    ensures Fits(ts[..|ts| - 1], o[..|ts| - 1], duration, cooldown)
  {
    var n := |ts| - 1;
    forall i, j | 0 <= i < j < n && Common(ts[..n], i, j)
      ensures o[i] - o[j] >= cooldown || o[j] - o[i] >= cooldown
    {
      assert Common(ts, i, j);
    }
  }

  // No overfull target can be scheduled at all, whatever the other target sets are.
  lemma TooManyIsInfeasible(ts: seq<seq<string>>, t: string, duration: int, cooldown: int)
    requires cooldown > 0 && TooMany(ts, t, duration, cooldown)
    requires forall i :: 0 <= i < |ts| ==> Distinct(ts[i])
    ensures !Feasible(ts, duration, cooldown)
  {
    if o :| Fits(ts, o, duration, cooldown) {
      OffsetsOfApart(ts, o, t, duration, cooldown);
      ApartSpans(OffsetsOf(ts, o, t), cooldown, 0, duration - 1);
    }
  }

  // Conversely the layout itself shows that what it accepts is feasible.
  lemma SuccessIsFeasible(designs: seq<Design>, pairs: seq<ReplayPair>, duration: int, cooldown: int)
    requires Regular(designs, pairs, duration, cooldown) && Succeeds(designs, pairs, duration, cooldown)
    ensures Feasible(TargetLists(designs, pairs), duration, cooldown)
  {
    var ts := TargetLists(designs, pairs);
    SucceedsExactly(designs, pairs, duration, cooldown);
    var o := seq(|ts|, i requires 0 <= i < |ts| => FinalOffset(ts, i, duration, cooldown));
    forall i | 0 <= i < |o|
      ensures 0 <= o[i] < duration
    {
      OffsetGap(ts, i, i, duration, cooldown);
    }
    forall i, j | 0 <= i < j < |ts| && Common(ts, i, j)
      ensures o[i] - o[j] >= cooldown || o[j] - o[i] >= cooldown
    {
      OffsetGap(ts, i, j, duration, cooldown);
      OffsetGap(ts, j, i, duration, cooldown);
    }
    assert Fits(ts, o, duration, cooldown);
  }

  // ----- target sets that dominate each other -----------------------------------------------------------

  // Wherever t is a target, so is u.
  ghost predicate Follows(sets: seq<seq<string>>, t: string, u: string) {
    forall i :: 0 <= i < |sets| && t in sets[i] ==> u in sets[i]
  }

  // Some target of this set follows t.
  ghost predicate Leads(sets: seq<seq<string>>, t: string, targets: seq<string>) {
    exists u :: u in targets && Follows(sets, t, u)
  }

  // If two sets share a target, each target of one has, in the other, a target that is
  // used wherever it is. A property of the sets alone, whatever the replays and their order.
  ghost predicate Dominated(sets: seq<seq<string>>) {
    forall i, j, t :: 0 <= i < |sets| && 0 <= j < |sets| && Common(sets, i, j) && t in sets[i] ==>
      Leads(sets, t, sets[j])
  }

  ghost predicate ListsDistinct(sets: seq<seq<string>>) {
    forall i :: 0 <= i < |sets| ==> Distinct(sets[i])
  }

  ghost predicate ListsFrom(ts: seq<seq<string>>, sets: seq<seq<string>>) {
    forall k :: 0 <= k < |ts| ==> ts[k] in sets
  }

  // Lists taken from sets that dominate each other dominate each other too.
  lemma DominatedLists(sets: seq<seq<string>>, ts: seq<seq<string>>)
    requires Dominated(sets) && ListsFrom(ts, sets)
    ensures Dominated(ts)
  {
    forall i, j, t | 0 <= i < |ts| && 0 <= j < |ts| && Common(ts, i, j) && t in ts[i]
      ensures Leads(ts, t, ts[j])
    {
      var a, b :| 0 <= a < |sets| && 0 <= b < |sets| && sets[a] == ts[i] && sets[b] == ts[j];
      assert Common(sets, a, b);
      assert Leads(sets, t, sets[b]);
      var u :| u in ts[j] && Follows(sets, t, u);
      assert Follows(ts, t, u);
    }
  }

  lemma {:induction false} UsesFollow(ts: seq<seq<string>>, k: nat, t: string, u: string)
    requires k <= |ts| && ListsDistinct(ts) && Follows(ts, t, u)
    ensures Uses(ts[..k], t) <= Uses(ts[..k], u)
  {
    if k > 0 {
      UsesFollow(ts, k - 1, t, u);
      assert ts[..k] == ts[..k - 1] + [ts[k - 1]];
      UsesSnoc(ts[..k - 1], ts[k - 1], t);
      UsesSnoc(ts[..k - 1], ts[k - 1], u);
      DistinctCount(ts[k - 1], t);
      DistinctCount(ts[k - 1], u);
    }
  }

  // Then a later replay with a common target always comes to a later position: whatever
  // held the earlier one back, a target of the later one has been used as often, and once more.
  lemma DominatedDiffers(ts: seq<seq<string>>)
    requires Dominated(ts) && ListsDistinct(ts)
    ensures PositionsDiffer(ts)
  {
    forall i, j | 0 <= i < j < |ts| && Common(ts, i, j)
      ensures Position(ts, i) != Position(ts, j)
    {
      var t := MaxUsesReached(ts[i], ts[..i]);
      assert Leads(ts, t, ts[j]);
      var u :| u in ts[j] && Follows(ts, t, u);
      UsesFollow(ts, i, t, u);
      UsesGrow(ts, i, j, u);
      MaxUsesCovers(ts[j], ts[..j], u);
    }
  }

  // So the layout succeeds exactly when some assignment of offsets in the campaign keeps
  // replays of each target apart.
  lemma SucceedsIffFeasible(designs: seq<Design>, pairs: seq<ReplayPair>, duration: int, cooldown: int)
    requires Regular(designs, pairs, duration, cooldown) && Dominated(TargetLists(designs, pairs))
    ensures Succeeds(designs, pairs, duration, cooldown) <==> Feasible(TargetLists(designs, pairs), duration, cooldown)
  {
    var ts := TargetLists(designs, pairs);
    SucceedsExactly(designs, pairs, duration, cooldown);
    DominatedDiffers(ts);
    if Succeeds(designs, pairs, duration, cooldown) {
      SuccessIsFeasible(designs, pairs, duration, cooldown);
    } else {
      var t :| TooMany(ts, t, duration, cooldown);
      TooManyIsInfeasible(ts, t, duration, cooldown);
    }
  }

  // Sets that are equal or disjoint dominate each other.
  lemma EqualOrDisjointDominated(sets: seq<seq<string>>)
    requires forall i, j, t :: 0 <= i < |sets| && 0 <= j < |sets| && Common(sets, i, j) && t in sets[i] ==> t in sets[j]
    ensures Dominated(sets)
  {
    forall i, j, t | 0 <= i < |sets| && 0 <= j < |sets| && Common(sets, i, j) && t in sets[i]
      ensures Leads(sets, t, sets[j])
    {
      assert Follows(sets, t, t);
    }
  }

  // So do sets of which, of any two targets used together, one follows the other.
  lemma NestedDominated(sets: seq<seq<string>>)
    requires forall i, t, u :: 0 <= i < |sets| && t in sets[i] && u in sets[i] ==>
               Follows(sets, t, u) || Follows(sets, u, t)
    ensures Dominated(sets)
  {
    forall i, j, t | 0 <= i < |sets| && 0 <= j < |sets| && Common(sets, i, j) && t in sets[i]
      ensures Leads(sets, t, sets[j])
    {
      var s :| s in sets[i] && s in sets[j];
      assert Follows(sets, t, t);
    }
  }

  // Without that condition the layout can refuse a feasible campaign: three replays on B,
  // one on A and B, three on A, in this order, with room for four.
  lemma OverlapRefused()
    ensures Regular(ExampleDesigns(), ExamplePairs(), 4, 1)
    ensures Feasible(TargetLists(ExampleDesigns(), ExamplePairs()), 4, 1)
    ensures !Succeeds(ExampleDesigns(), ExamplePairs(), 4, 1)
  {
    var ts := TargetLists(ExampleDesigns(), ExamplePairs());
    assert ts == Example();
    ExampleRegular();
    ExampleFits();
    UsesOfExample();
    assert "A" in ts[3] && "A" in ts[6];
    assert Common(ts, 3, 6);
    SucceedsExactly(ExampleDesigns(), ExamplePairs(), 4, 1);
  }

  function ExampleDesigns(): seq<Design> {
    [Design("b", 3, ["B"]), Design("ab", 1, ["A", "B"]), Design("a", 3, ["A"])]
  }

  function ExamplePairs(): seq<ReplayPair> {
    [ReplayPair(0, 0), ReplayPair(0, 1), ReplayPair(0, 2), ReplayPair(1, 0),
     ReplayPair(2, 0), ReplayPair(2, 1), ReplayPair(2, 2)]
  }

  lemma ExampleRegular()
    ensures Regular(ExampleDesigns(), ExamplePairs(), 4, 1)
  {
    assert "b"[0] != "a"[0] && |"ab"| == 2;
    assert IDsDistinct(ExampleDesigns());
    assert "B"[0] != "A"[0];
  }

  function Example(): (ts: seq<seq<string>>)
    ensures |ts| == 7
  {
    [["B"], ["B"], ["B"], ["A", "B"], ["A"], ["A"], ["A"]]
  }

  lemma ExampleFits()
    ensures Feasible(Example(), 4, 1)
  {
    var ts, o := Example(), [1, 2, 3, 0, 1, 2, 3];
    forall i, j | 0 <= i < j < |ts| && Common(ts, i, j)
      ensures o[i] != o[j]
    {
      assert "B"[0] != "A"[0];
    }
    assert Fits(ts, o, 4, 1);
  }

  lemma ExampleCounts(k: nat)
    requires k < 7
    ensures multiset(Example()[k])["A"] == if k < 3 then 0 else 1
    ensures multiset(Example()[k])["B"] == if k < 4 then 1 else 0
  {
    assert "B"[0] != "A"[0];
    var l := Example()[k];
    assert Distinct(l);
    DistinctCount(l, "A");
    DistinctCount(l, "B");
  }

  // The uses of A and of B among the first k replays of the example.
  lemma {:induction false} ExampleUses(k: nat)
    requires k <= 7
    ensures Uses(Example()[..k], "A") == if k <= 3 then 0 else k - 3
    ensures Uses(Example()[..k], "B") == if k <= 4 then k else 4
  {
    if k > 0 {
      hide Uses, Example;
      ExampleUses(k - 1);
      var ts := Example();
      assert ts[..k] == ts[..k - 1] + [ts[k - 1]];
      UsesSnoc(ts[..k - 1], ts[k - 1], "A");
      UsesSnoc(ts[..k - 1], ts[k - 1], "B");
      ExampleCounts(k - 1);
    }
  }

  lemma UsesOfExample()
    ensures Position(Example(), 3) == Position(Example(), 6) == 3
  {
    ExampleUses(3);
    ExampleUses(6);
    var ab, a := ["A", "B"], ["A"];
    assert ab[..1] == ["A"] && a[..0] == [] && ["A"][..0] == [];
    assert MaxUses(ab[..1], Example()[..3]) == 0;
    assert MaxUses(ab, Example()[..3]) == 3 && MaxUses(a, Example()[..6]) == 3;
  }
}
