/**
 The families of target sets on which generateSchedule (internal/campaign/generator.go),
 grid and layout together, is right for every seed and every campaign: exactly those in
 which the sets dominate each other.
 */
module ScheduleFamilies {
  import opened Seqs
  import opened Campaign
  import opened CooldownCheck
  import opened CooldownLayout
  import opened CooldownSchedule
  import opened CooldownExactness
  import opened CooldownFamilies
  import opened Schedule
  import Shuffle
  import UniformSchedule

  // ----- the grid as a schedule -------------------------------------------------------------

  // The grid, put in order, is a schedule.
  lemma GridIsSchedule(designs: seq<Design>, pairs: seq<ReplayPair>, duration: int, cooldown: int,
          jitterDraws: seq<real>)
    requires duration > 0 && pairs != [] && UniformSchedule.Draws(jitterDraws, |pairs|)
    requires InDesigns(designs, pairs) && multiset(pairs) == multiset(AllPairs(designs))
    requires Spaced(Grid(designs, pairs, duration, jitterDraws), ByID(designs), cooldown)
    ensures Schedulable(designs, duration, cooldown)
  {
    hide Spaced, ByID, StableSort, AllPairs;
    var width := duration / |pairs|;
    var js := UniformSchedule.Jitters(width, width as real, jitterDraws);
    var grid := Grid(designs, pairs, duration, jitterDraws);
    var slots := StableSort(grid);
    UniformSchedule.RawHolds(designs, pairs, duration, js);
    SortHolds(slots, grid, designs, pairs);
    PairKeysShuffled(designs, pairs, AllPairs(designs));
    UniformSchedule.GridGaps(designs, pairs, duration, js);
    forall i | 0 <= i < |slots|
      ensures 0 <= slots[i].offset < duration
    {
      assert slots[i] in multiset(slots);
      assert slots[i] in grid;
    }
    SpacedOrderFree(grid, slots, ByID(designs), cooldown);
    assert SpacedSchedule(slots, designs, duration, cooldown);
  }

  lemma SpacedWithoutCooldown(slots: seq<ReplaySlot>, dm: DesignMap, cooldown: int)
    requires cooldown <= 0
    ensures Spaced(slots, dm, cooldown)
  {
  }

  // Whatever the family, what is accepted can be scheduled.
  lemma AcceptsSoundly(designs: seq<Design>, duration: int, cooldown: int, draws: seq<nat>, jitterDraws: seq<real>)
    requires GoodDesigns(designs) && duration > 0 && Seeds(designs, draws, jitterDraws)
    requires Accepts(designs, duration, cooldown, draws, jitterDraws)
    ensures Schedulable(designs, duration, cooldown)
  {
    var pairs := Order(designs, draws);
    ShuffledPairs(designs, pairs);
    if pairs == [] {
      NothingAsked(designs, pairs, duration, cooldown);
    } else {
      var grid := Grid(designs, pairs, duration, jitterDraws);
      if cooldown <= 0 || Spaced(grid, ByID(designs), cooldown) {
        if cooldown <= 0 {
          SpacedWithoutCooldown(grid, ByID(designs), cooldown);
        }
        GridIsSchedule(designs, pairs, duration, cooldown, jitterDraws);
      } else {
        LayoutIsSchedulable(designs, pairs, duration, cooldown);
      }
    }
  }

  lemma LayoutIsSchedulable(designs: seq<Design>, pairs: seq<ReplayPair>, duration: int, cooldown: int)
    requires GoodDesigns(designs) && duration > 0 && cooldown > 0
    requires InDesigns(designs, pairs) && multiset(pairs) == multiset(AllPairs(designs))
    requires LayoutFits(designs, pairs, duration, cooldown)
    ensures Schedulable(designs, duration, cooldown)
  {
    hide Spaced, Sorted;
    ShuffledPairs(designs, pairs);
    assert Regular(designs, pairs, duration, cooldown);
    SucceedsExactly(designs, pairs, duration, cooldown);
    SucceedsSoundly(designs, pairs, duration, cooldown);
    assert SpacedSchedule(StableSort(Layout(designs, pairs, duration, cooldown)), designs, duration, cooldown);
  }

  // For sets that dominate each other a campaign that is refused has an overfull target.
  lemma RefusedForGood(designs: seq<Design>, pairs: seq<ReplayPair>, duration: int, cooldown: int)
    requires GoodDesigns(designs) && duration > 0 && cooldown > 0
    requires InDesigns(designs, pairs) && multiset(pairs) == multiset(AllPairs(designs))
    requires Dominated(TargetLists(designs, pairs)) && !LayoutFits(designs, pairs, duration, cooldown)
    ensures !Schedulable(designs, duration, cooldown)
  {
    var ts := TargetLists(designs, pairs);
    DominatedDiffers(ts);
    var t :| TooMany(ts, t, duration, cooldown);
    TooManyIsInfeasible(ts, t, duration, cooldown);
    if slots :| SpacedSchedule(slots, designs, duration, cooldown) {
      ScheduleIsFeasible(slots, designs, pairs, duration, cooldown);
    }
  }

  // ----- a campaign that is wrongly refused ---------------------------------------------------

  // Draws that leave the replays in their order.
  function Unshuffled(n: nat): (c: seq<nat>)
    ensures Shuffle.Draws(c, n) && forall i :: 0 <= i < n ==> c[i] == i
  {
    seq(n, i => i)
  }

  lemma {:induction false} UnshuffledDown<T>(a: seq<T>, i: nat)
    requires i < |a| || i == 0
    ensures Shuffle.ShuffleDown(a, Unshuffled(|a|), i) == a
  {
    if i > 0 {
      assert Shuffle.Swap(a, i, i) == a;
      UnshuffledDown(a, i - 1);
    }
  }

  // Draws that put each replay on its grid point.
  function Steady(n: nat): (us: seq<real>)
    ensures UniformSchedule.Draws(us, n) && forall i :: 0 <= i < n ==> us[i] == 0.5
  {
    seq(n, i => 0.5)
  }

  // Draws that do so with all but the last, which comes a quarter of a slot early.
  function LastEarly(n: nat): (us: seq<real>)
    ensures UniformSchedule.Draws(us, n) && forall i :: 0 <= i < n ==> us[i] == if i + 1 == n then 0.0 else 0.5
  {
    seq(n, i => if i + 1 == n then 0.0 else 0.5)
  }

  // The offsets of both grids for slots of four nanoseconds.
  lemma GridOffsets(designs: seq<Design>, pairs: seq<ReplayPair>)
    requires InDesigns(designs, pairs) && |pairs| >= 2
    ensures |Grid(designs, pairs, 4 * |pairs|, Steady(|pairs|))| == |pairs|
    ensures |Grid(designs, pairs, 4 * |pairs|, LastEarly(|pairs|))| == |pairs|
    ensures forall k :: 0 <= k < |pairs| ==>
              Grid(designs, pairs, 4 * |pairs|, Steady(|pairs|))[k] == SlotAt(designs, pairs, k, 4 * k)
    ensures forall k :: 0 <= k < |pairs| ==>
              Grid(designs, pairs, 4 * |pairs|, LastEarly(|pairs|))[k]
              == SlotAt(designs, pairs, k, if k + 1 == |pairs| then 4 * k - 1 else 4 * k)
  {
    assert (4 * |pairs|) / |pairs| == 4;
    assert UniformSchedule.Jitter(4, 4.0, UniformSchedule.Fraction(0.5)) == 0;
    assert UniformSchedule.Jitter(4, 4.0, UniformSchedule.Fraction(0.0)) == -1;
  }

  lemma SteadyIsSpaced(designs: seq<Design>, pairs: seq<ReplayPair>)
    requires InDesigns(designs, pairs) && |pairs| >= 2
    ensures Spaced(Grid(designs, pairs, 4 * |pairs|, Steady(|pairs|)), ByID(designs), 4)
  {
    hide Grid, Steady, Share, ByID;
    var grid := Grid(designs, pairs, 4 * |pairs|, Steady(|pairs|));
    GridOffsets(designs, pairs);
    assert forall k :: 0 <= k < |grid| ==> grid[k].offset == 4 * k;
    forall x, y | x in grid && y in grid && x != y
      ensures x.offset - y.offset >= 4 || y.offset - x.offset >= 4
    {
      var k, l :| 0 <= k < |grid| && 0 <= l < |grid| && grid[k] == x && grid[l] == y;
    }
  }

  lemma EarlyIsNotSpaced(designs: seq<Design>, pairs: seq<ReplayPair>)
    requires GoodDesigns(designs) && InDesigns(designs, pairs) && |pairs| >= 2
    requires Common(TargetLists(designs, pairs), |pairs| - 2, |pairs| - 1)
    ensures !Spaced(Grid(designs, pairs, 4 * |pairs|, LastEarly(|pairs|)), ByID(designs), 4)
  {
    hide Grid, LastEarly, ByID, TargetsOf;
    var n := |pairs|;
    var grid := Grid(designs, pairs, 4 * n, LastEarly(n));
    GridOffsets(designs, pairs);
    var x, y := grid[n - 2], grid[n - 1];
    TargetsFound(designs, pairs, n - 2, x.offset);
    TargetsFound(designs, pairs, n - 1, y.offset);
    assert x in grid && y in grid && y.offset - x.offset == 3;
    assert Share(ByID(designs), x, y);
  }

  function ListsInOrder(designs: seq<Design>): seq<seq<string>> {
    TargetLists(designs, AllPairs(designs))
  }

  // A campaign with room for all its replays, one after the other, is refused when the last
  // two come too close on the grid and the layout gives two others the same step.
  lemma EndRefused(designs: seq<Design>)
    requires GoodDesigns(designs) && |AllPairs(designs)| >= 2
    requires Common(ListsInOrder(designs), |AllPairs(designs)| - 2, |AllPairs(designs)| - 1)
    requires !PositionsDiffer(ListsInOrder(designs))
    ensures var n := |AllPairs(designs)|;
            Schedulable(designs, 4 * n, 4)
            && Seeds(designs, Unshuffled(n), LastEarly(n))
            && !Accepts(designs, 4 * n, 4, Unshuffled(n), LastEarly(n))
  {
    hide Spaced, Grid, AllPairs, GoodDesigns, Position, PositionsDiffer, Common, TooMany, Schedulable, ByID, Steady;
    var pairs := AllPairs(designs);
    var n := |pairs|;
    UnshuffledDown(pairs, n - 1);
    assert Order(designs, Unshuffled(n)) == pairs;
    SteadyIsSpaced(designs, pairs);
    GridIsSchedule(designs, pairs, 4 * n, 4, Steady(n));
    EarlyIsNotSpaced(designs, pairs);
  }

  lemma {:induction false} OneEachPairs(designs: seq<Design>)
    requires forall k :: 0 <= k < |designs| ==> designs[k].replays == 1
    ensures |AllPairs(designs)| == |designs|
    ensures forall k :: 0 <= k < |designs| ==> AllPairs(designs)[k] == ReplayPair(k, 0)
  {
    if designs != [] {
      OneEachPairs(designs[..|designs| - 1]);
    }
  }

  // ----- the theorem ---------------------------------------------------------------------------

  // On designs with targets from this family generateSchedule is right for every seed: it
  // schedules exactly the campaigns that have a schedule.
  ghost predicate RightForEverySeed(sets: seq<seq<string>>) {
    forall designs, duration, cooldown, draws, jitterDraws ::
      GoodDesigns(designs) && TargetsFrom(designs, sets) && duration > 0 && Seeds(designs, draws, jitterDraws) ==>
        (Accepts(designs, duration, cooldown, draws, jitterDraws) <==> Schedulable(designs, duration, cooldown))
  }

  lemma GapRefused(sets: seq<seq<string>>, i: nat, j: nat, t: string)
    requires ListsDistinct(sets) && Gap(sets, i, j, t)
    ensures !RightForEverySeed(sets)
  {
    hide Gap, PositionsDiffer, Position, Common, Schedulable, Accepts, LayoutFits;
    var ts := GapCollides(sets, i, j, t);
    var designs := OneEach(ts);
    OneEachPairs(designs);
    assert ListsInOrder(designs) == ts;
    assert forall k, l :: 0 <= k < l < |ts| ==> |designs[k].id| != |designs[l].id|;
    assert GoodDesigns(designs) && TargetsFrom(designs, sets);
    EndRefused(designs);
  }

  lemma DominatedIsRight(sets: seq<seq<string>>, designs: seq<Design>, duration: int, cooldown: int, draws: seq<nat>,
          jitterDraws: seq<real>)
    requires Dominated(sets) && GoodDesigns(designs) && TargetsFrom(designs, sets)
    requires duration > 0 && Seeds(designs, draws, jitterDraws)
    ensures Accepts(designs, duration, cooldown, draws, jitterDraws) <==> Schedulable(designs, duration, cooldown)
  {
    if Accepts(designs, duration, cooldown, draws, jitterDraws) {
      AcceptsSoundly(designs, duration, cooldown, draws, jitterDraws);
    } else {
      var pairs := Order(designs, draws);
      ListsOfDesigns(designs, pairs, sets);
      DominatedLists(sets, TargetLists(designs, pairs));
      RefusedForGood(designs, pairs, duration, cooldown);
    }
  }

  // generateSchedule refuses no campaign over a family of target sets that has a schedule,
  // whatever the replays, the times and the seed, if and only if the sets dominate each other.
  lemma RightIffDominated(sets: seq<seq<string>>)
    requires ListsDistinct(sets)
    ensures RightForEverySeed(sets) <==> Dominated(sets)
  {
    if Dominated(sets) {
      forall designs, duration, cooldown, draws, jitterDraws
        | GoodDesigns(designs) && TargetsFrom(designs, sets) && duration > 0 && Seeds(designs, draws, jitterDraws)
        ensures Accepts(designs, duration, cooldown, draws, jitterDraws) <==> Schedulable(designs, duration, cooldown)
      {
        DominatedIsRight(sets, designs, duration, cooldown, draws, jitterDraws);
      }
    } else {
      var i, j, t :|
        0 <= i < |sets| && 0 <= j < |sets| && Common(sets, i, j) && t in sets[i] && !Leads(sets, t, sets[j]);
      GapRefused(sets, i, j, t);
    }
  }

  // A concrete campaign: three replays on B, one on A and B, three on A, 28 nanoseconds, and
  // a cooldown of 4. It has a schedule, and with these draws it is refused.
  lemma ExampleRefused()
    ensures GoodDesigns(ExampleDesigns()) && Schedulable(ExampleDesigns(), 28, 4)
    ensures Seeds(ExampleDesigns(), Unshuffled(7), LastEarly(7))
    ensures !Accepts(ExampleDesigns(), 28, 4, Unshuffled(7), LastEarly(7))
  {
    var designs := ExampleDesigns();
    ExampleRegular();
    ExampleInOrder();
    UsesOfExample();
    assert ListsInOrder(designs) == Example();
    assert "A" in Example()[3] && "A" in Example()[5] && "A" in Example()[6];
    assert Common(Example(), 3, 6) && Common(Example(), 5, 6);
    EndRefused(designs);
  }

  lemma AllPairsSnoc(designs: seq<Design>, d: Design)
    ensures AllPairs(designs + [d]) == AllPairs(designs) + PairsOf(|designs|, d.replays)
  {
    assert (designs + [d])[..|designs|] == designs;
  }

  lemma ExampleInOrder()
    ensures AllPairs(ExampleDesigns()) == ExamplePairs()
  {
    hide AllPairs;
    var d := ExampleDesigns();
    AllPairsSnoc([], d[0]);
    AllPairsSnoc([d[0]], d[1]);
    AllPairsSnoc([d[0], d[1]], d[2]);
    NoPairs();
    assert [] + [d[0]] == [d[0]] && [d[0]] + [d[1]] == [d[0], d[1]] && [d[0], d[1]] + [d[2]] == d;
    assert PairsOf(0, 3) + PairsOf(1, 1) + PairsOf(2, 3) == ExamplePairs();
  }

  lemma NoPairs()
    ensures AllPairs([]) == []
  {
  }
}
