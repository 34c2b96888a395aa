/** generateSchedule as a whole (internal/campaign/generator.go). */
module Schedule {
  import opened Seqs
  import opened Campaign
  import opened CooldownCheck
  import opened CooldownLayout
  import opened CooldownSchedule
  import opened CooldownExactness
  import Shuffle
  import UniformSchedule

  ghost predicate GoodDesigns(designs: seq<Design>) {
    IDsDistinct(designs) && forall i :: 0 <= i < |designs| ==> Distinct(designs[i].targets)
  }

  // The target lists of the designs that are replayed at all.
  function ReplayedTargets(designs: seq<Design>): seq<seq<string>> {
    if designs == [] then []
    else ReplayedTargets(designs[..|designs| - 1])
         + if designs[|designs| - 1].replays > 0 then [designs[|designs| - 1].targets] else []
  }

  lemma {:induction false} ReplayedIn(designs: seq<Design>, d: nat)
    requires d < |designs| && designs[d].replays > 0
    ensures designs[d].targets in ReplayedTargets(designs)
  {
    var n := |designs| - 1;
    if d < n {
      ReplayedIn(designs[..n], d);
    }
  }

  // What is asked of a schedule: every replay once, in order, inside the campaign.
  ghost predicate IsSchedule(slots: seq<ReplaySlot>, designs: seq<Design>, duration: int) {
    && Holds(slots, designs, AllPairs(designs))
    && Sorted(slots) && UniformSchedule.InRange(slots, duration)
  }

  // A schedule with the cooldown, by whatever method.
  ghost predicate SpacedSchedule(slots: seq<ReplaySlot>, designs: seq<Design>, duration: int, cooldown: int) {
    IsSchedule(slots, designs, duration) && Spaced(slots, ByID(designs), cooldown)
  }

  lemma ShuffledPairs(designs: seq<Design>, pairs: seq<ReplayPair>)
    requires multiset(pairs) == multiset(AllPairs(designs))
    ensures InDesigns(designs, pairs) && Distinct(pairs)
    ensures multiset(PairKeys(designs, AllPairs(designs))) == multiset(PairKeys(designs, pairs))
  {
    AllPairsExact(designs);
    SameIsDistinct(AllPairs(designs), pairs);
    forall i | 0 <= i < |pairs|
      ensures pairs[i].design < |designs|
    {
      assert pairs[i] in multiset(pairs);
      assert pairs[i] in AllPairs(designs);
    }
    PairKeysShuffled(designs, AllPairs(designs), pairs);
  }

  lemma SlotExists(slots: seq<ReplaySlot>, designs: seq<Design>, pairs: seq<ReplayPair>, i: nat)
    requires InDesigns(designs, pairs) && Holds(slots, designs, pairs) && i < |pairs|
    ensures exists s :: s in slots && Key(s) == PairKeys(designs, pairs)[i]
  {
    var k := PairKeys(designs, pairs)[i];
    assert k in multiset(PairKeys(designs, pairs));
    assert k in Map(Key, slots);
    var j :| 0 <= j < |slots| && Map(Key, slots)[j] == k;
    assert slots[j] in slots;
  }

  // The slot a schedule gives to replay i.
  ghost function SlotFor(slots: seq<ReplaySlot>, designs: seq<Design>, pairs: seq<ReplayPair>, i: nat): (s: ReplaySlot)
    requires InDesigns(designs, pairs) && Holds(slots, designs, pairs) && i < |pairs|
    ensures s in slots && s == SlotAt(designs, pairs, i, s.offset)
  {
    SlotExists(slots, designs, pairs, i);
    var s :| s in slots && Key(s) == PairKeys(designs, pairs)[i];
    s
  }

  // If any spaced schedule exists, the replays in any order have a feasible assignment.
  lemma ScheduleIsFeasible(slots: seq<ReplaySlot>, designs: seq<Design>, pairs: seq<ReplayPair>, duration: int,
          cooldown: int)
    requires GoodDesigns(designs) && multiset(pairs) == multiset(AllPairs(designs))
    requires SpacedSchedule(slots, designs, duration, cooldown)
    ensures InDesigns(designs, pairs) && Feasible(TargetLists(designs, pairs), duration, cooldown)
  {
    ShuffledPairs(designs, pairs);
    var ts, dm := TargetLists(designs, pairs), ByID(designs);
    var o := seq(|pairs|, i requires 0 <= i < |pairs| => SlotFor(slots, designs, pairs, i).offset);
    forall i, j | 0 <= i < j < |ts| && Common(ts, i, j)
      ensures o[i] - o[j] >= cooldown || o[j] - o[i] >= cooldown
    {
      var x, y := SlotFor(slots, designs, pairs, i), SlotFor(slots, designs, pairs, j);
      TargetsFound(designs, pairs, i, x.offset);
      TargetsFound(designs, pairs, j, y.offset);
      assert pairs[i] != pairs[j];
      assert Share(dm, x, y);
    }
    assert Fits(ts, o, duration, cooldown);
  }

  ghost predicate Schedulable(designs: seq<Design>, duration: int, cooldown: int) {
    exists slots :: SpacedSchedule(slots, designs, duration, cooldown)
  }

  ghost predicate Seeds(designs: seq<Design>, draws: seq<nat>, jitterDraws: seq<real>) {
    Shuffle.Draws(draws, |AllPairs(designs)|) && UniformSchedule.Draws(jitterDraws, |AllPairs(designs)|)
  }

  ghost function Order(designs: seq<Design>, draws: seq<nat>): (pairs: seq<ReplayPair>)
    requires Shuffle.Draws(draws, |AllPairs(designs)|)
    ensures multiset(pairs) == multiset(AllPairs(designs)) && |pairs| == |AllPairs(designs)|
    ensures InDesigns(designs, pairs)
  {
    var all := AllPairs(designs);
    Shuffle.ShufflePermutes(all, draws, if all == [] then 0 else |all| - 1);
    ShuffledPairs(designs, Shuffle.Shuffled(all, draws));
    Shuffle.Shuffled(all, draws)
  }

  method ShufflePairs(designs: seq<Design>, draws: seq<nat>) returns (pairs: seq<ReplayPair>)
    requires Shuffle.Draws(draws, |AllPairs(designs)|)
    ensures pairs == Order(designs, draws)
  {
    var all := BuildPairs(designs);
    var a := new ReplayPair[|all|](i requires 0 <= i < |all| => all[i]);
    assert a[..] == all;
    Shuffle.ShuffleInPlace(a, draws);
    pairs := a[..];
  }

  // The uniform grid over the shuffled pairs.
  ghost function Grid(designs: seq<Design>, pairs: seq<ReplayPair>, duration: int,
          jitterDraws: seq<real>): seq<ReplaySlot>
    requires InDesigns(designs, pairs) && pairs != [] && duration > 0 && UniformSchedule.Draws(jitterDraws, |pairs|)
  {
    var width := duration / |pairs|;
    UniformSchedule.RawSlots(designs, pairs, duration, UniformSchedule.Jitters(width, width as real, jitterDraws))
  }

  // No target is overfull and no two replays of a target get the same step of the layout.
  ghost predicate LayoutFits(designs: seq<Design>, pairs: seq<ReplayPair>, duration: int, cooldown: int)
    requires InDesigns(designs, pairs)
  {
    var ts := TargetLists(designs, pairs);
    (forall t :: !TooMany(ts, t, duration, cooldown)) && PositionsDiffer(ts)
  }

  // Which campaigns are scheduled, for one seed: those without a cooldown, those whose grid
  // happens to keep it, and those that the layout has room and different steps for.
  ghost predicate Accepts(designs: seq<Design>, duration: int, cooldown: int, draws: seq<nat>, jitterDraws: seq<real>)
    requires duration > 0 && Seeds(designs, draws, jitterDraws)
  {
    var pairs := Order(designs, draws);
    || cooldown <= 0
    || (pairs != [] && Spaced(Grid(designs, pairs, duration, jitterDraws), ByID(designs), cooldown))
    || LayoutFits(designs, pairs, duration, cooldown)
  }

  lemma GridIsPlain(designs: seq<Design>, pairs: seq<ReplayPair>, duration: int, jitterDraws: seq<real>)
    requires InDesigns(designs, pairs) && pairs != [] && duration > 0 && UniformSchedule.Draws(jitterDraws, |pairs|)
    ensures UniformSchedule.OnGrid(Grid(designs, pairs, duration, jitterDraws), designs, pairs, duration, jitterDraws)
  {
    UniformSchedule.RawIsOnGrid(designs, pairs, duration, jitterDraws);
  }

  method GenerateSchedule(designs: seq<Design>, duration: int, cooldown: int, draws: seq<nat>, jitterDraws: seq<real>)
    returns (r: ScheduleResult, ghost pairs: seq<ReplayPair>)
    requires duration > 0
    requires Seeds(designs, draws, jitterDraws)
    // What is returned is a schedule, and with a cooldown all pairs on a target keep it.
    ensures r.Scheduled? ==> IsSchedule(r.slots, designs, duration)
    ensures r.Scheduled? && cooldown > 0 && GoodDesigns(designs) ==>
              SpacedSchedule(r.slots, designs, duration, cooldown)
    // When it fails, exactly. Without a cooldown it never does, and with one, for target sets
    // that dominate each other, only when no such schedule exists.
    ensures GoodDesigns(designs) ==> (r.Scheduled? <==> Accepts(designs, duration, cooldown, draws, jitterDraws))
    ensures cooldown <= 0 ==> r.Scheduled?
    ensures cooldown > 0 && GoodDesigns(designs) && Dominated(ReplayedTargets(designs)) ==>
              (r.Scheduled? <==> Schedulable(designs, duration, cooldown))
    ensures pairs == Order(designs, draws)
    // A sort of the grid is used whenever the grid keeps the cooldown, and the layout otherwise.
    ensures GoodDesigns(designs) && pairs != [] && r.Scheduled? ==>
              var grid := Grid(designs, pairs, duration, jitterDraws);
              && UniformSchedule.OnGrid(grid, designs, pairs, duration, jitterDraws)
              && if cooldown <= 0 || Spaced(grid, ByID(designs), cooldown) then SortOf(r.slots, grid)
                 else LaidOut(r.slots, designs, pairs, duration, cooldown)
    // With time for a slot per replay the grid needs no sorting.
    ensures pairs != [] && duration >= |pairs| ==>
              var grid := Grid(designs, pairs, duration, jitterDraws);
              if cooldown <= 0 || Respects(grid, ByID(designs), cooldown) then r == Scheduled(grid)
              else (r.Scheduled? <==> Succeeds(designs, pairs, duration, cooldown))
                   && (r.Scheduled? ==> r.slots == StableSort(Layout(designs, pairs, duration, cooldown)))
                   && (r.Scheduled? ==> LaidOut(r.slots, designs, pairs, duration, cooldown))
  {
    hide Spaced, IsSchedule, SpacedSchedule, LayoutFits, Succeeds, Dominated, ReplayedTargets, Grid, Respects;
    hide LaidOut, UniformSchedule.OnGrid, SortOf, AllPairs, Order, Holds, GoodDesigns, StableSort, Layout, ByID;
    var order := ShufflePairs(designs, draws);
    pairs := order;
    if order == [] {
      NothingAsked(designs, order, duration, cooldown);
      r := Scheduled([]);
      return;
    }
    GridIsPlain(designs, order, duration, jitterDraws);
    var slots, respects := TryUniform(designs, order, duration, cooldown, jitterDraws);
    if respects {
      r := Scheduled(slots);
    } else {
      r := LayOut(designs, order, duration, cooldown);
    }
  }

  lemma NothingAsked(designs: seq<Design>, pairs: seq<ReplayPair>, duration: int, cooldown: int)
    requires multiset(pairs) == multiset(AllPairs(designs)) && pairs == []
    ensures IsSchedule([], designs, duration) && SpacedSchedule([], designs, duration, cooldown)
    ensures InDesigns(designs, pairs) && LayoutFits(designs, pairs, duration, cooldown)
  {
    NoneSame(pairs, AllPairs(designs));
  }

  method TryUniform(designs: seq<Design>, pairs: seq<ReplayPair>, duration: int, cooldown: int, jitterDraws: seq<real>)
    returns (slots: seq<ReplaySlot>, respects: bool)
    requires duration > 0 && pairs != [] && UniformSchedule.Draws(jitterDraws, |pairs|)
    requires InDesigns(designs, pairs) && multiset(pairs) == multiset(AllPairs(designs))
    ensures IsSchedule(slots, designs, duration)
    ensures duration >= |pairs| ==> slots == Grid(designs, pairs, duration, jitterDraws)
    ensures SortOf(slots, Grid(designs, pairs, duration, jitterDraws))
    ensures respects <==> cooldown <= 0 || Respects(slots, ByID(designs), cooldown)
    ensures cooldown > 0 && GoodDesigns(designs) ==>
              (respects <==> Spaced(Grid(designs, pairs, duration, jitterDraws), ByID(designs), cooldown))
    ensures respects && cooldown > 0 && GoodDesigns(designs) ==> SpacedSchedule(slots, designs, duration, cooldown)
  {
    ShuffledPairs(designs, pairs);
    slots := UniformSchedule.GenerateUniformSchedule(designs, pairs, duration, jitterDraws);
    respects := true;
    if cooldown > 0 {
      respects := ScheduleRespectsTargetCooldown(slots, ByID(designs), cooldown);
      if GoodDesigns(designs) {
        UniformSpaced(slots, Grid(designs, pairs, duration, jitterDraws), designs, pairs, cooldown);
      }
    }
  }

  method LayOut(designs: seq<Design>, pairs: seq<ReplayPair>, duration: int, cooldown: int) returns (r: ScheduleResult)
    requires duration > 0 && cooldown > 0 && InDesigns(designs, pairs) && multiset(pairs) == multiset(AllPairs(designs))
    ensures r.Scheduled? <==> Succeeds(designs, pairs, duration, cooldown)
    ensures GoodDesigns(designs) ==> (r.Scheduled? <==> LayoutFits(designs, pairs, duration, cooldown))
    ensures r.Scheduled? ==> r.slots == StableSort(Layout(designs, pairs, duration, cooldown))
    ensures r.Scheduled? ==> LaidOut(r.slots, designs, pairs, duration, cooldown)
    ensures r.Scheduled? ==> IsSchedule(r.slots, designs, duration)
    ensures r.Scheduled? && GoodDesigns(designs) ==> SpacedSchedule(r.slots, designs, duration, cooldown)
    ensures GoodDesigns(designs) && Dominated(ReplayedTargets(designs)) ==>
              (r.Scheduled? <==> Schedulable(designs, duration, cooldown))
  {
    hide LaidOut;
    ShuffledPairs(designs, pairs);
    r := GenerateCooldownSchedule(designs, pairs, duration, cooldown);
    CooldownOutcome(designs, pairs, duration, cooldown, r);
  }

  // Whichever way equal offsets are sorted, the check decides the spacing of the grid.
  lemma UniformSpaced(slots: seq<ReplaySlot>, grid: seq<ReplaySlot>, designs: seq<Design>, pairs: seq<ReplayPair>,
          cooldown: int)
    requires cooldown > 0 && GoodDesigns(designs) && InDesigns(designs, pairs) && Distinct(pairs)
    requires Holds(slots, designs, pairs) && SortOf(slots, grid)
    ensures Respects(slots, ByID(designs), cooldown) <==> Spaced(slots, ByID(designs), cooldown)
    ensures Spaced(slots, ByID(designs), cooldown) <==> Spaced(grid, ByID(designs), cooldown)
  {
    HoldsIsDistinct(slots, designs, pairs);
    ByIDTargetsDistinct(designs);
    RespectsMeansSpaced(slots, ByID(designs), cooldown);
    if Spaced(slots, ByID(designs), cooldown) {
      SpacedOrderFree(slots, grid, ByID(designs), cooldown);
    }
    if Spaced(grid, ByID(designs), cooldown) {
      SpacedOrderFree(grid, slots, ByID(designs), cooldown);
    }
  }

  // What a call of the cooldown layout on shuffled pairs means for the whole schedule.
  lemma CooldownOutcome(designs: seq<Design>, pairs: seq<ReplayPair>, duration: int, cooldown: int, r: ScheduleResult)
    requires cooldown > 0 && duration > 0 && multiset(pairs) == multiset(AllPairs(designs)) && InDesigns(designs, pairs)
    requires r.Scheduled? <==> Succeeds(designs, pairs, duration, cooldown)
    requires r.Scheduled? ==> r.slots == StableSort(Layout(designs, pairs, duration, cooldown))
    ensures r.Scheduled? ==> IsSchedule(r.slots, designs, duration)
    ensures r.Scheduled? && GoodDesigns(designs) ==> SpacedSchedule(r.slots, designs, duration, cooldown)
    ensures GoodDesigns(designs) ==> (r.Scheduled? <==> LayoutFits(designs, pairs, duration, cooldown))
    ensures GoodDesigns(designs) && Dominated(ReplayedTargets(designs)) ==>
              (r.Scheduled? <==> Schedulable(designs, duration, cooldown))
  {
    ShuffledPairs(designs, pairs);
    if r.Scheduled? {
      LayoutIsSchedule(designs, pairs, duration, cooldown);
    }
    if GoodDesigns(designs) {
      assert Regular(designs, pairs, duration, cooldown);
      SucceedsExactly(designs, pairs, duration, cooldown);
      if r.Scheduled? {
        SucceedsSoundly(designs, pairs, duration, cooldown);
        assert SpacedSchedule(r.slots, designs, duration, cooldown);
      } else if Dominated(ReplayedTargets(designs)) {
        PairsDominated(designs, pairs);
        SucceedsIffFeasible(designs, pairs, duration, cooldown);
        if slots :| SpacedSchedule(slots, designs, duration, cooldown) {
          ScheduleIsFeasible(slots, designs, pairs, duration, cooldown);
        }
      }
    }
  }

  lemma PairsDominated(designs: seq<Design>, pairs: seq<ReplayPair>)
    requires InDesigns(designs, pairs) && multiset(pairs) == multiset(AllPairs(designs))
    requires Dominated(ReplayedTargets(designs))
    ensures Dominated(TargetLists(designs, pairs))
  {
    var ts := TargetLists(designs, pairs);
    AllPairsExact(designs);
    forall k | 0 <= k < |ts|
      ensures ts[k] in ReplayedTargets(designs)
    {
      assert pairs[k] in multiset(pairs);
      assert ReplayPair(pairs[k].design, pairs[k].replay) in AllPairs(designs);
      ReplayedIn(designs, pairs[k].design);
    }
    DominatedLists(ReplayedTargets(designs), ts);
  }

  // Even for designs the generator would not produce, an accepted layout is in order, in
  // range and complete.
  lemma LayoutIsSchedule(designs: seq<Design>, pairs: seq<ReplayPair>, duration: int, cooldown: int)
    requires cooldown > 0 && duration > 0 && InDesigns(designs, pairs)
    requires multiset(PairKeys(designs, AllPairs(designs))) == multiset(PairKeys(designs, pairs))
    requires Succeeds(designs, pairs, duration, cooldown)
    ensures IsSchedule(StableSort(Layout(designs, pairs, duration, cooldown)), designs, duration)
  {
    var ts, layout := TargetLists(designs, pairs), Layout(designs, pairs, duration, cooldown);
    var slots := StableSort(layout);
    assert Map(Key, layout) == PairKeys(designs, pairs);
    SortHolds(slots, layout, designs, pairs);
    forall i | 0 <= i < |slots|
      ensures 0 <= slots[i].offset < duration
    {
      assert slots[i] in multiset(slots);
      assert slots[i] in layout;
      var k :| 0 <= k < |layout| && layout[k] == slots[i];
      OffsetGap(ts, k, k, duration, cooldown);
    }
  }
}
