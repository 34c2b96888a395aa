/**
 The families of target sets on which the cooldown layout, taken by itself, is right for
 every number of replays, every order, every duration and every cooldown: exactly those in
 which the sets dominate each other. For any other family a campaign is built that it
 wrongly refuses; ScheduleFamilies has the whole of generateSchedule.
 */
module CooldownFamilies {
  import opened Seqs
  import opened Campaign
  import opened CooldownLayout
  import opened CooldownSchedule
  import opened CooldownExactness

  // ----- how positions grow ---------------------------------------------------------------------

  lemma MaxUsesShift(targets: seq<string>, a: seq<seq<string>>, b: seq<seq<string>>, d: nat)
    requires targets != [] && forall t :: t in targets ==> Uses(b, t) == Uses(a, t) + d
    ensures MaxUses(targets, b) == MaxUses(targets, a) + d
  {
    var t := MaxUsesReached(targets, a);
    var u := MaxUsesReached(targets, b);
    MaxUsesCovers(targets, b, t);
    MaxUsesCovers(targets, a, u);
  }

  function Copies(targets: seq<string>, n: nat): (ts: seq<seq<string>>)
    ensures |ts| == n && forall k :: 0 <= k < n ==> ts[k] == targets
  {
    seq(n, k => targets)
  }

  // Each further replay of one set goes one position further.
  lemma {:induction false} CopiesAdvance(before: seq<seq<string>>, targets: seq<string>, n: nat)
    requires targets != [] && Distinct(targets)
    ensures MaxUses(targets, before + Copies(targets, n)) == MaxUses(targets, before) + n
  {
    if n == 0 {
      assert before + Copies(targets, 0) == before;
    } else {
      CopiesAdvance(before, targets, n - 1);
      var b := before + Copies(targets, n - 1);
      assert before + Copies(targets, n) == b + [targets];
      forall t | t in targets
        ensures Uses(b + [targets], t) == Uses(b, t) + 1
      {
        UsesSnoc(b, targets, t);
        DistinctCount(targets, t);
      }
      MaxUsesShift(targets, b, b + [targets], 1);
    }
  }

  lemma {:induction false} UsesBounded(ts: seq<seq<string>>, t: string)
    requires ListsDistinct(ts)
    ensures Uses(ts, t) <= |ts|
    ensures (forall k :: 0 <= k < |ts| ==> t in ts[k]) ==> Uses(ts, t) == |ts|
    ensures (exists k :: 0 <= k < |ts| && t !in ts[k]) ==> Uses(ts, t) < |ts|
  {
    if ts != [] {
      var n := |ts| - 1;
      UsesBounded(ts[..n], t);
      DistinctCount(ts[n], t);
    }
  }

  // ----- a campaign the layout wrongly refuses ---------------------------------------------------------

  // Sets i and j share a target, but no target of set j follows t, a target of set i.
  ghost predicate Gap(sets: seq<seq<string>>, i: nat, j: nat, t: string) {
    i < |sets| && j < |sets| && Common(sets, i, j) && t in sets[i] && !Leads(sets, t, sets[j])
  }

  // For each target of z, a set with t and without that target.
  lemma {:induction false} Avoiding(sets: seq<seq<string>>, t: string, z: seq<string>) returns (ys: seq<seq<string>>)
    requires forall u :: u in z ==> !Follows(sets, t, u)
    ensures |ys| == |z| && ListsFrom(ys, sets)
    ensures forall k :: 0 <= k < |z| ==> t in ys[k] && z[k] !in ys[k]
  {
    if z == [] {
      ys := [];
    } else {
      assert z[0] in z;
      var i :| 0 <= i < |sets| && t in sets[i] && z[0] !in sets[i];
      var rest := Avoiding(sets, t, z[1..]);
      ys := [sets[i]] + rest;
    }
  }

  // Sets with t come first, and no target of z is in all of them; then x, which t holds
  // back, then as many replays of z as it takes to reach the position of x.
  function Delayed(ys: seq<seq<string>>, x: seq<string>, z: seq<string>, n: nat): seq<seq<string>> {
    (ys + [x]) + Copies(z, n + 1)
  }

  lemma PositionOfX(ys: seq<seq<string>>, x: seq<string>, z: seq<string>, n: nat, t: string)
    requires ListsDistinct(ys) && t in x && forall k :: 0 <= k < |ys| ==> t in ys[k]
    ensures Position(Delayed(ys, x, z, n), |ys|) == |ys|
  {
    var ts := Delayed(ys, x, z, n);
    assert ts[..|ys|] == ys && ts[|ys|] == x;
    UsesBounded(ys, t);
    MaxUsesCovers(x, ys, t);
    var u := MaxUsesReached(x, ys);
    UsesBounded(ys, u);
  }

  lemma ZStartsEarly(ys: seq<seq<string>>, x: seq<string>, z: seq<string>)
    requires ListsDistinct(ys) && Distinct(x) && z != [] && |ys| == |z|
    requires forall k :: 0 <= k < |z| ==> z[k] !in ys[k]
    ensures MaxUses(z, ys + [x]) <= |ys|
  {
    var u := MaxUsesReached(z, ys + [x]);
    var k :| 0 <= k < |z| && z[k] == u;
    assert u !in ys[k];
    UsesBounded(ys, u);
    UsesSnoc(ys, x, u);
    DistinctCount(x, u);
  }

  lemma PositionOfZ(ys: seq<seq<string>>, x: seq<string>, z: seq<string>, n: nat)
    requires z != [] && Distinct(z)
    ensures |Delayed(ys, x, z, n)| == |ys| + n + 2
    ensures Position(Delayed(ys, x, z, n), |ys| + 1 + n) == MaxUses(z, ys + [x]) + n
  {
    var ts, k := Delayed(ys, x, z, n), |ys| + 1 + n;
    assert ts[..k] == (ys + [x]) + Copies(z, n) && ts[k] == z;
    CopiesAdvance(ys + [x], z, n);
  }

  // The last two replays have a target in common.
  lemma DelayedEnds(ys: seq<seq<string>>, x: seq<string>, z: seq<string>, n: nat)
    requires exists u :: u in x && u in z
    ensures var ts := Delayed(ys, x, z, n); Common(ts, |ts| - 2, |ts| - 1)
  {
    var ts := Delayed(ys, x, z, n);
    var k := |ts| - 2;
    assert ts[k + 1] == z && ts[k] == if n == 0 then x else z;
  }

  lemma GapCollides(sets: seq<seq<string>>, i: nat, j: nat, t: string) returns (ts: seq<seq<string>>)
    requires ListsDistinct(sets) && Gap(sets, i, j, t)
    ensures ListsFrom(ts, sets) && !PositionsDiffer(ts)
    ensures |ts| >= 2 && Common(ts, |ts| - 2, |ts| - 1)
  {
    hide MaxUses, Uses;
    var x, z := sets[i], sets[j];
    assert forall u :: u in z ==> !Follows(sets, t, u);
    var ys := Avoiding(sets, t, z);
    assert ListsDistinct(ys);
    ZStartsEarly(ys, x, z);
    var n := |ys| - MaxUses(z, ys + [x]);
    ts := Delayed(ys, x, z, n);
    PositionOfX(ys, x, z, n, t);
    PositionOfZ(ys, x, z, n);
    assert ts[|ys|] == x && ts[|ys| + 1 + n] == z;
    assert Common(ts, |ys|, |ys| + 1 + n);
    DelayedEnds(ys, x, z, n);
  }

  // ----- the theorem ------------------------------------------------------------------------------------

  ghost predicate TargetsFrom(designs: seq<Design>, sets: seq<seq<string>>) {
    forall d :: 0 <= d < |designs| ==> designs[d].targets in sets
  }

  // On designs with targets from this family the layout is right about every campaign.
  ghost predicate AlwaysRight(sets: seq<seq<string>>) {
    forall designs, pairs, duration, cooldown ::
      Regular(designs, pairs, duration, cooldown) && TargetsFrom(designs, sets) ==>
        (Succeeds(designs, pairs, duration, cooldown) <==> Feasible(TargetLists(designs, pairs), duration, cooldown))
  }

  // One design with one replay for each list; the designs are told apart by the length of
  // their IDs.
  function OneEach(ts: seq<seq<string>>): (designs: seq<Design>)
    ensures |designs| == |ts|
    ensures forall k :: 0 <= k < |ts| ==>
              designs[k].targets == ts[k] && designs[k].replays == 1 && |designs[k].id| == k + 1
  {
    seq(|ts|, k requires 0 <= k < |ts| => Design(seq(k + 1, i => 'd'), 1, ts[k]))
  }

  // Any list of target lists is that of some campaign.
  lemma Realized(ts: seq<seq<string>>, duration: int, cooldown: int) returns (pairs: seq<ReplayPair>)
    requires ListsDistinct(ts) && duration > 0 && cooldown > 0
    ensures Regular(OneEach(ts), pairs, duration, cooldown) && TargetLists(OneEach(ts), pairs) == ts
  {
    pairs := seq(|ts|, k requires 0 <= k < |ts| => ReplayPair(k, 0));
    assert forall k, l :: 0 <= k < l < |ts| ==> |OneEach(ts)[k].id| != |OneEach(ts)[l].id|;
  }

  // One replay after the other always fits, given time enough.
  lemma OneByOne(ts: seq<seq<string>>)
    ensures Feasible(ts, 4 * |ts|, 4)
  {
    assert Fits(ts, seq(|ts|, k requires 0 <= k < |ts| => 4 * k), 4 * |ts|, 4);
  }

  lemma GapRefuses(sets: seq<seq<string>>, i: nat, j: nat, t: string)
    requires ListsDistinct(sets) && Gap(sets, i, j, t)
    ensures !AlwaysRight(sets)
  {
    hide Gap, PositionsDiffer, Position, Common, Uses, TooMany;
    var ts := GapCollides(sets, i, j, t);
    assert ListsDistinct(ts);
    var pairs := Realized(ts, 4 * |ts|, 4);
    OneByOne(ts);
    SucceedsExactly(OneEach(ts), pairs, 4 * |ts|, 4);
    assert TargetsFrom(OneEach(ts), sets);
  }

  lemma ListsOfDesigns(designs: seq<Design>, pairs: seq<ReplayPair>, sets: seq<seq<string>>)
    requires InDesigns(designs, pairs) && TargetsFrom(designs, sets)
    ensures ListsFrom(TargetLists(designs, pairs), sets)
  {
  }

  // The layout refuses no feasible campaign over a family of target sets, however often and
  // in whatever order they are replayed, if and only if the sets dominate each other.
  lemma AlwaysRightIffDominated(sets: seq<seq<string>>)
    requires ListsDistinct(sets)
    ensures AlwaysRight(sets) <==> Dominated(sets)
  {
    if Dominated(sets) {
      forall designs, pairs, duration, cooldown
        | Regular(designs, pairs, duration, cooldown) && TargetsFrom(designs, sets)
        ensures Succeeds(designs, pairs, duration, cooldown)
           <==> Feasible(TargetLists(designs, pairs), duration, cooldown)
      {
        ListsOfDesigns(designs, pairs, sets);
        DominatedLists(sets, TargetLists(designs, pairs));
        SucceedsIffFeasible(designs, pairs, duration, cooldown);
      }
    } else {
      var i, j, t :|
        0 <= i < |sets| && 0 <= j < |sets| && Common(sets, i, j) && t in sets[i] && !Leads(sets, t, sets[j]);
      GapRefuses(sets, i, j, t);
    }
  }
}
