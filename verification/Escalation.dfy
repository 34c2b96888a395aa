/**
 Stage windows of an escalating failure (pickEscalation and helpers in
 internal/campaign/generator.go). Every random draw is an arbitrary number in its range.
 */
module Escalation {

  const LAYERED := "layered"
  const REPLACEMENT := "replacement"
  const RECOVERY := "recovery"

  datatype Stage = Stage(failureType: string, offset: int, duration: int) {
    function End(): int {
      offset + duration
    }
  }

  datatype EscalationDesign = EscalationDesign(pattern: string, stages: seq<Stage>)

  // The part of a campaign that escalations are drawn from.
  datatype Config = Config(stagesMin: int, stagesMax: int, delayMin: int, delayMax: int,
                           patterns: seq<string>, failureTypes: seq<string>) {
    // What validateEscalation accepts, in a campaign with at least one failure type.
    predicate Valid() {
      && 2 <= stagesMin <= stagesMax && 0 < delayMin <= delayMax && patterns != [] && failureTypes != []
      && forall p :: p in patterns ==> p == LAYERED || p == REPLACEMENT || p == RECOVERY
    }
  }

  // The draws, in the order in which the generator makes them.
  datatype Draws = Draws(stages: nat, pattern: nat, delays: seq<nat>, types: seq<nat>)

  ghost predicate DrawsOk(c: Config, d: Draws)
    requires c.Valid()
  {
    && d.stages <= c.stagesMax - c.stagesMin && d.pattern < |c.patterns|
    && |d.delays| == c.stagesMin + d.stages && |d.types| == |d.delays|
    && (forall i :: 0 <= i < |d.delays| ==> d.delays[i] <= c.delayMax - c.delayMin)
    && (forall i :: 0 <= i < |d.types| ==> d.types[i] < |c.failureTypes|)
  }

  function DurationIn(min: int, max: int, draw: nat): int {
    if max <= min then min else min + draw
  }

  // When stage i would start if the scenario never ended.
  function StartOf(c: Config, delays: seq<nat>, i: nat): int
    requires i <= |delays|
  {
    if i == 0 then 0 else StartOf(c, delays, i - 1) + DurationIn(c.delayMin, c.delayMax, delays[i - 1])
  }

  lemma {:induction false} StartsIncrease(c: Config, delays: seq<nat>, i: nat, j: nat)
    requires c.Valid() && i < j <= |delays|
    ensures StartOf(c, delays, i) < StartOf(c, delays, j)
  {
    if i < j - 1 {
      StartsIncrease(c, delays, i, j - 1);
    }
  }

  function HalfPositive(d: int): int {
    if d <= 1 then d else d / 2
  }

  function StageDuration(pattern: string, offsets: seq<int>, i: nat, scenario: int): int
    requires i < |offsets|
  {
    var remaining := scenario - offsets[i];
    if pattern == REPLACEMENT then
      if i + 1 < |offsets| then offsets[i + 1] - offsets[i] else remaining
    else if pattern == RECOVERY then
      if i + 1 < |offsets| then HalfPositive(offsets[i + 1] - offsets[i]) else HalfPositive(remaining)
    else
      remaining
  }

  function Offsets(stages: seq<Stage>): (os: seq<int>)
    ensures |os| == |stages| && forall i :: 0 <= i < |stages| ==> os[i] == stages[i].offset
  {
    seq(|stages|, i requires 0 <= i < |stages| => stages[i].offset)
  }

  ghost predicate StartsAt(c: Config, delays: seq<nat>, offsets: seq<int>, scenario: int) {
    |offsets| <= |delays| && forall i :: 0 <= i < |offsets| ==> offsets[i] == StartOf(c, delays, i) < scenario
  }

  // What PickEscalation promises about the windows, for some valid draws.
  ghost predicate Picked(c: Config, delays: seq<nat>, e: EscalationDesign, scenario: int)
    requires c.Valid()
  {
    && 1 <= |e.stages| <= |delays| && e.pattern in c.patterns
    && StartsAt(c, delays, Offsets(e.stages), scenario)
    && (forall i :: 0 <= i < |e.stages| ==>
          e.stages[i].duration == StageDuration(e.pattern, Offsets(e.stages), i, scenario))
  }

  // The starts of the stages, cut off at the end of the scenario.
  method PickOffsets(c: Config, delays: seq<nat>, scenario: int) returns (offsets: seq<int>)
    requires delays != [] && scenario > 0
    ensures 1 <= |offsets| && StartsAt(c, delays, offsets, scenario)
    ensures |offsets| < |delays| ==> StartOf(c, delays, |offsets|) >= scenario
  {
    offsets := [];
    var offset := 0;
    var i := 0;
    while i < |delays|
      invariant 0 <= i <= |delays| && |offsets| == i
      invariant i < |delays| ==> offset == StartOf(c, delays, i) < scenario
      invariant StartsAt(c, delays, offsets, scenario)
    {
      offsets := offsets + [offset];
      i := i + 1;
      if i < |delays| {
        assert StartOf(c, delays, i) == StartOf(c, delays, i - 1) + DurationIn(c.delayMin, c.delayMax, delays[i - 1]);
        offset := offset + DurationIn(c.delayMin, c.delayMax, delays[i - 1]);
        if offset >= scenario {
          break;
        }
      }
    }
  }

  method PickEscalation(c: Config, d: Draws, base: string, scenario: int) returns (e: EscalationDesign)
    requires c.Valid() && DrawsOk(c, d) && scenario > 0
    ensures Picked(c, d.delays, e, scenario) && e.pattern == c.patterns[d.pattern]
    // The first stage starts at once, each later one after its drawn delay.
    ensures e.stages[0].offset == 0 && |e.stages| <= c.stagesMin + d.stages
    ensures forall i :: 0 <= i < |e.stages| - 1 ==> DelayedBy(c, d.delays, i, e.stages[i], e.stages[i + 1])
    // Stages are left out only because they would start too late.
    ensures |e.stages| < c.stagesMin + d.stages ==>
              e.stages[|e.stages| - 1].offset + c.delayMin + d.delays[|e.stages| - 1] >= scenario
    ensures |e.stages| < |d.delays| ==> StartOf(c, d.delays, |e.stages|) >= scenario
    ensures forall i :: 0 <= i < |e.stages| ==>
              e.stages[i].failureType == if i == 0 then base else c.failureTypes[d.types[i]]
  {
    var pattern := c.patterns[d.pattern];
    var offsets := PickOffsets(c, d.delays, scenario);
    var stages: seq<Stage> := [];
    for k := 0 to |offsets|
      invariant |stages| == k
      invariant forall m :: 0 <= m < k ==>
        stages[m].failureType == (if m == 0 then base else c.failureTypes[d.types[m]])
        && stages[m].offset == offsets[m] && stages[m].duration == StageDuration(pattern, offsets, m, scenario)
    {
      var failureType := if k == 0 then base else c.failureTypes[d.types[k]];
      stages := stages + [Stage(failureType, offsets[k], StageDuration(pattern, offsets, k, scenario))];
    }
    e := EscalationDesign(pattern, stages);
    assert Offsets(stages) == offsets;
    DelaysAreDrawn(c, d.delays, e, scenario);
    if |stages| < |d.delays| {
      DrawnDelay(c, d.delays, |stages| - 1);
    }
  }

  // Between the smallest and the largest delay, as drawn.
  predicate DelayedBy(c: Config, delays: seq<nat>, i: nat, s: Stage, t: Stage)
    requires i < |delays|
  {
    t.offset == s.offset + c.delayMin + delays[i] && c.delayMin <= t.offset - s.offset <= c.delayMax
  }

  lemma DrawnDelay(c: Config, delays: seq<nat>, i: nat)
    requires c.Valid() && i < |delays| && delays[i] <= c.delayMax - c.delayMin
    ensures StartOf(c, delays, i + 1) == StartOf(c, delays, i) + c.delayMin + delays[i]
  {
  }

  lemma DelaysAreDrawn(c: Config, delays: seq<nat>, e: EscalationDesign, scenario: int)
    requires c.Valid() && Picked(c, delays, e, scenario)
    requires forall i :: 0 <= i < |delays| ==> delays[i] <= c.delayMax - c.delayMin
    ensures e.stages[0].offset == 0
    ensures forall i :: 0 <= i < |e.stages| - 1 ==> DelayedBy(c, delays, i, e.stages[i], e.stages[i + 1])
  {
    assert StartOf(c, delays, 0) == 0;
    forall i | 0 <= i < |e.stages| - 1
      ensures DelayedBy(c, delays, i, e.stages[i], e.stages[i + 1])
    {
      DrawnDelay(c, delays, i);
    }
  }

  // ----- what the windows look like ----------------------------------------------------------

  // Stages start at 0 and then strictly later and later, all before the scenario ends.
  lemma OffsetsIncrease(c: Config, delays: seq<nat>, e: EscalationDesign, scenario: int)
    requires c.Valid() && Picked(c, delays, e, scenario)
    ensures e.stages[0].offset == 0
    ensures forall i, j :: 0 <= i < j < |e.stages| ==> e.stages[i].offset < e.stages[j].offset < scenario
  {
    forall i, j | 0 <= i < j < |e.stages|
      ensures e.stages[i].offset < e.stages[j].offset < scenario
    {
      StartsIncrease(c, delays, i, j);
    }
  }

  // Every stage lasts, and none outlasts the scenario.
  lemma WindowsInside(c: Config, delays: seq<nat>, e: EscalationDesign, scenario: int, i: nat)
    requires c.Valid() && Picked(c, delays, e, scenario) && i < |e.stages|
    ensures e.stages[i].duration > 0 && e.stages[i].End() <= scenario
  {
    OffsetsIncrease(c, delays, e, scenario);
  }

  ghost predicate ActiveAt(s: Stage, t: int) {
    s.offset <= t < s.End()
  }

  // Replacement stages tile the scenario: at every moment exactly one is active.
  lemma ReplacementTiles(c: Config, delays: seq<nat>, e: EscalationDesign, scenario: int, t: int) returns (i: nat)
    requires c.Valid() && Picked(c, delays, e, scenario) && e.pattern == REPLACEMENT && 0 <= t < scenario
    ensures i < |e.stages| && ActiveAt(e.stages[i], t)
    ensures forall j :: 0 <= j < |e.stages| && ActiveAt(e.stages[j], t) ==> j == i
  {
    OffsetsIncrease(c, delays, e, scenario);
    i := 0;
    while i + 1 < |e.stages| && e.stages[i + 1].offset <= t
      invariant i < |e.stages| && e.stages[i].offset <= t
    {
      i := i + 1;
    }
    forall j | 0 <= j < |e.stages| && ActiveAt(e.stages[j], t)
      ensures j == i
    {
    }
  }

  // Recovery stages are pairwise disjoint, with a quiet gap whenever there is room for one.
  lemma RecoveryDisjoint(c: Config, delays: seq<nat>, e: EscalationDesign, scenario: int, i: nat, j: nat)
    requires c.Valid() && Picked(c, delays, e, scenario) && e.pattern == RECOVERY && i < j < |e.stages|
    ensures e.stages[i].End() <= e.stages[j].offset
    ensures e.stages[j].offset - e.stages[i].offset >= 2 ==> e.stages[i].End() < e.stages[j].offset
  {
    OffsetsIncrease(c, delays, e, scenario);
    if i + 1 < j {
      assert e.stages[i + 1].offset < e.stages[j].offset;
    }
  }

  // d is half of gap, rounded down, but all of a gap that has no half.
  predicate IsHalf(gap: int, d: int) {
    if gap == 1 then d == 1 else 2 * d <= gap <= 2 * d + 1
  }

  // A recovery stage lasts half of the time to the next stage, the last one half of the time
  // to the end.
  lemma RecoveryHalves(c: Config, delays: seq<nat>, e: EscalationDesign, scenario: int, i: nat)
    requires c.Valid() && Picked(c, delays, e, scenario) && e.pattern == RECOVERY && i < |e.stages|
    ensures var next := if i + 1 < |e.stages| then e.stages[i + 1].offset else scenario;
            IsHalf(next - e.stages[i].offset, e.stages[i].duration)
  {
    OffsetsIncrease(c, delays, e, scenario);
  }

  // Layered stages overlap: all of them last until the scenario ends.
  lemma LayeredEndTogether(c: Config, delays: seq<nat>, e: EscalationDesign, scenario: int, i: nat)
    requires c.Valid() && Picked(c, delays, e, scenario) && i < |e.stages|
    requires e.pattern != REPLACEMENT && e.pattern != RECOVERY
    ensures e.stages[i].End() == scenario
  {
    OffsetsIncrease(c, delays, e, scenario);
  }
}
