/**
 Where the cooldown layout puts each replay (generateCooldownSchedule in
 internal/campaign/generator.go), as functions, and what these functions mean. Stretching
 an offset is exact: the product with the ratio of the spans, rounded down, where the
 original rounds to float64 before it truncates.
 */
module CooldownLayout {
  import opened Arith
  import opened Seqs
  import opened Campaign

  // ----- positions ------------------------------------------------------------------------

  function TargetLists(designs: seq<Design>, pairs: seq<ReplayPair>): (ts: seq<seq<string>>)
    requires InDesigns(designs, pairs)
    ensures |ts| == |pairs| && forall i :: 0 <= i < |pairs| ==> ts[i] == designs[pairs[i].design].targets
  {
    seq(|pairs|, i requires 0 <= i < |pairs| => designs[pairs[i].design].targets)
  }

  // How often target t is used by these replays.
  function Uses(ts: seq<seq<string>>, t: string): nat {
    if ts == [] then 0 else Uses(ts[..|ts| - 1], t) + multiset(ts[|ts| - 1])[t]
  }

  function MaxUses(targets: seq<string>, before: seq<seq<string>>): nat {
    if targets == [] then 0
    else
      var n := |targets| - 1;
      var m := MaxUses(targets[..n], before);
      if Uses(before, targets[n]) > m then Uses(before, targets[n]) else m
  }

  // The step of the time line replay i goes to: one more than the uses so far of its
  // busiest target would allow.
  function Position(ts: seq<seq<string>>, i: nat): nat
    requires i < |ts|
  {
    MaxUses(ts[i], ts[..i])
  }

  // Target t alone needs more room than the campaign has.
  predicate TooMany(ts: seq<seq<string>>, t: string, duration: int, cooldown: int) {
    Uses(ts, t) > 0 && (Uses(ts, t) - 1) * cooldown >= duration
  }

  // The offset of the latest of the first k replays, before stretching.
  function Latest(ts: seq<seq<string>>, k: nat, cooldown: int): int
    requires k <= |ts|
  {
    if k == 0 then 0
    else
      var m := Latest(ts, k - 1, cooldown);
      var o := Position(ts, k - 1) * cooldown;
      if o > m then o else m
  }

  // Offsets are stretched so that the latest one lands on the last nanosecond.
  function Stretch(o: int, latest: int, duration: int): int {
    if latest > 0 && duration - 1 > latest then (o * (duration - 1)) / latest else o
  }

  function FinalOffset(ts: seq<seq<string>>, i: nat, duration: int, cooldown: int): int
    requires i < |ts|
  {
    Stretch(Position(ts, i) * cooldown, Latest(ts, |ts|, cooldown), duration)
  }

  function SlotAt(designs: seq<Design>, pairs: seq<ReplayPair>, i: nat, offset: int): ReplaySlot
    requires InDesigns(designs, pairs) && i < |pairs|
  {
    ReplaySlot(designs[pairs[i].design].id, pairs[i].replay, offset)
  }

  function Layout(designs: seq<Design>, pairs: seq<ReplayPair>, duration: int, cooldown: int): (slots: seq<ReplaySlot>)
    requires InDesigns(designs, pairs)
    ensures |slots| == |pairs|
    ensures forall i :: 0 <= i < |pairs| ==>
              slots[i] == SlotAt(designs, pairs, i, FinalOffset(TargetLists(designs, pairs), i, duration, cooldown))
  {
    seq(|pairs|, i requires 0 <= i < |pairs| =>
      SlotAt(designs, pairs, i, FinalOffset(TargetLists(designs, pairs), i, duration, cooldown)))
  }

  // ----- uses and positions -------------------------------------------------------------------

  lemma UsesSnoc(ts: seq<seq<string>>, targets: seq<string>, t: string)
    ensures Uses(ts + [targets], t) == Uses(ts, t) + multiset(targets)[t]
  {
    assert (ts + [targets])[..|ts|] == ts;
  }

  lemma {:induction false} MaxUsesCovers(targets: seq<string>, before: seq<seq<string>>, t: string)
    requires t in targets
    ensures MaxUses(targets, before) >= Uses(before, t)
  {
    var n := |targets| - 1;
    if t != targets[n] {
      MaxUsesCovers(targets[..n], before, t);
    }
  }

  lemma {:induction false} MaxUsesReached(targets: seq<string>, before: seq<seq<string>>) returns (t: string)
    requires targets != []
    ensures t in targets && MaxUses(targets, before) == Uses(before, t)
  {
    var n := |targets| - 1;
    if n == 0 || Uses(before, targets[n]) > MaxUses(targets[..n], before) {
      t := targets[n];
    } else {
      t := MaxUsesReached(targets[..n], before);
    }
  }

  lemma ScaleOrder(a: int, b: int, k: int)
    requires k > 0
    ensures a * k > b * k <==> a > b
  {
    if a > b {
      MulStep(b, a, k);
    } else {
      MulMonotone(a, b, k);
    }
  }

  lemma {:induction false} LatestCovers(ts: seq<seq<string>>, k: nat, i: nat, cooldown: int)
    requires i < k <= |ts|
    ensures Position(ts, i) * cooldown <= Latest(ts, k, cooldown)
  {
    if i < k - 1 {
      LatestCovers(ts, k - 1, i, cooldown);
    }
  }

  function UsesTarget(t: string): seq<string> -> bool {
    (targets: seq<string>) => t in targets
  }

  // Among lists without repetition, the uses of a target are the lists that hold it.
  lemma {:induction false} UsesIsCount(ts: seq<seq<string>>, t: string)
    requires forall k :: 0 <= k < |ts| ==> Distinct(ts[k])
    ensures Uses(ts, t) == Count(UsesTarget(t), ts)
  {
    if ts != [] {
      var n := |ts| - 1;
      UsesIsCount(ts[..n], t);
      DistinctCount(ts[n], t);
      CountSnoc(UsesTarget(t), ts[..n], ts[n]);
      assert ts == ts[..n] + [ts[n]];
    }
  }

  // ----- what the layout is, in plain terms ------------------------------------------------------

  // Of the targets of replay i, the busiest one was used p times by the replays before it.
  ghost predicate IsPosition(ts: seq<seq<string>>, i: nat, p: nat)
    requires i < |ts|
  {
    && (forall t :: t in ts[i] ==> Uses(ts[..i], t) <= p)
    && (if ts[i] == [] then p == 0 else exists t :: t in ts[i] && Uses(ts[..i], t) == p)
  }

  ghost predicate IsLargest(ts: seq<seq<string>>, top: nat) {
    && (forall i: nat, p: nat :: i < |ts| && IsPosition(ts, i, p) ==> p <= top)
    && (if ts == [] then top == 0 else exists i: nat :: i < |ts| && IsPosition(ts, i, top))
  }

  // Position p lies p cooldowns after the start; if this leaves time at the end, all of it
  // is used: the largest position comes to the last nanosecond and the others, rounded
  // down, in proportion.
  ghost predicate IsOffset(p: nat, top: nat, duration: int, cooldown: int, x: int) {
    if top > 0 && duration - 1 > top * cooldown
    then x * top <= p * (duration - 1) < (x + 1) * top
    else x == p * cooldown
  }

  ghost predicate Places(raw: seq<ReplaySlot>, designs: seq<Design>, pairs: seq<ReplayPair>, duration: int,
          cooldown: int, top: nat)
    requires InDesigns(designs, pairs)
  {
    var ts := TargetLists(designs, pairs);
    |raw| == |pairs| && forall i: nat, p: nat :: i < |pairs| && IsPosition(ts, i, p) ==>
      && raw[i].designID == designs[pairs[i].design].id && raw[i].index == pairs[i].replay
      && IsOffset(p, top, duration, cooldown, raw[i].offset)
  }

  // The slots of a schedule are exactly those of the layout.
  ghost predicate LaidOut(slots: seq<ReplaySlot>, designs: seq<Design>, pairs: seq<ReplayPair>, duration: int,
          cooldown: int)
    requires InDesigns(designs, pairs)
  {
    exists raw, top: nat ::
      && IsLargest(TargetLists(designs, pairs), top) && Places(raw, designs, pairs, duration, cooldown, top)
      && SortOf(slots, raw)
  }

  lemma PositionIs(ts: seq<seq<string>>, i: nat, p: nat)
    requires i < |ts|
    ensures IsPosition(ts, i, p) <==> p == Position(ts, i)
  {
    if ts[i] != [] {
      var t := MaxUsesReached(ts[i], ts[..i]);
      forall u | u in ts[i]
        ensures Uses(ts[..i], u) <= Position(ts, i)
      {
        MaxUsesCovers(ts[i], ts[..i], u);
      }
    }
  }

  lemma {:induction false} LatestReached(ts: seq<seq<string>>, k: nat, cooldown: int) returns (i: nat)
    requires 0 < k <= |ts| && cooldown > 0
    ensures i < k && Latest(ts, k, cooldown) == Position(ts, i) * cooldown
  {
    MulNonNegative(Position(ts, k - 1), cooldown);
    i := k - 1;
    assert Latest(ts, 0, cooldown) == 0;
    if Latest(ts, k, cooldown) != Position(ts, k - 1) * cooldown {
      i := LatestReached(ts, k - 1, cooldown);
    }
  }

  lemma LatestIsLargest(ts: seq<seq<string>>, cooldown: int) returns (top: nat)
    requires cooldown > 0
    ensures IsLargest(ts, top) && Latest(ts, |ts|, cooldown) == top * cooldown
  {
    top := 0;
    if ts != [] {
      var i := LatestReached(ts, |ts|, cooldown);
      top := Position(ts, i);
      PositionIs(ts, i, top);
    }
    forall j: nat, p: nat | j < |ts| && IsPosition(ts, j, p)
      ensures p <= top
    {
      PositionIs(ts, j, p);
      LatestCovers(ts, |ts|, j, cooldown);
      ScaleOrder(p, top, cooldown);
    }
  }

  lemma StretchMeans(p: nat, top: nat, duration: int, cooldown: int)
    requires cooldown > 0
    ensures IsOffset(p, top, duration, cooldown, Stretch(p * cooldown, top * cooldown, duration))
  {
    ScaleOrder(top, 0, cooldown);
    if top > 0 && duration - 1 > top * cooldown {
      var n, d := p * (duration - 1), top * cooldown;
      var x := ((p * cooldown) * (duration - 1)) / d;
      assert (p * cooldown) * (duration - 1) == n * cooldown;
      assert x * d == (x * top) * cooldown && (x + 1) * d == ((x + 1) * top) * cooldown;
      assert x * d <= n * cooldown < (x + 1) * d;
      ScaleOrder(x * top, n, cooldown);
      ScaleOrder((x + 1) * top, n, cooldown);
    }
  }

  // The sorted layout is laid out so.
  lemma LayoutIsLaidOut(designs: seq<Design>, pairs: seq<ReplayPair>, duration: int, cooldown: int)
    requires InDesigns(designs, pairs) && cooldown > 0
    ensures LaidOut(StableSort(Layout(designs, pairs, duration, cooldown)), designs, pairs, duration, cooldown)
  {
    var ts, raw := TargetLists(designs, pairs), Layout(designs, pairs, duration, cooldown);
    var top := LatestIsLargest(ts, cooldown);
    forall i: nat, p: nat | i < |pairs| && IsPosition(ts, i, p)
      ensures raw[i].designID == designs[pairs[i].design].id && raw[i].index == pairs[i].replay
      ensures IsOffset(p, top, duration, cooldown, raw[i].offset)
    {
      PositionIs(ts, i, p);
      StretchMeans(p, top, duration, cooldown);
    }
    assert Places(raw, designs, pairs, duration, cooldown, top);
  }

  lemma OffsetOfLargest(top: nat, duration: int, x: int)
    requires top > 0 && x * top <= top * (duration - 1) < (x + 1) * top
    ensures x == duration - 1
  {
    ScaleOrder(x, duration - 1, top);
    ScaleOrder(x + 1, duration - 1, top);
  }

  lemma OffsetOfOthers(p: nat, top: nat, duration: int, cooldown: int, x: int)
    requires p <= top && top > 0 && duration - 1 > top * cooldown && IsOffset(p, top, duration, cooldown, x)
    requires duration > 0
    ensures x <= duration - 1
  {
    MulMonotone(p, top, duration - 1);
    ScaleOrder(x, duration - 1, top);
  }

  lemma LargestComesLast(slots: seq<ReplaySlot>, raw: seq<ReplaySlot>, i: nat)
    requires SortOf(slots, raw) && i < |raw| && forall l :: 0 <= l < |raw| ==> raw[l].offset <= raw[i].offset
    ensures slots != [] && slots[|slots| - 1].offset == raw[i].offset
  {
    assert raw[i] in multiset(slots);
    var k :| 0 <= k < |slots| && slots[k] == raw[i];
    assert slots[|slots| - 1] in multiset(raw);
  }

  lemma OneLargest(ts: seq<seq<string>>, a: nat, b: nat)
    requires IsLargest(ts, a) && IsLargest(ts, b)
    ensures a == b
  {
    hide IsPosition;
  }

  lemma PlacesLargest(raw: seq<ReplaySlot>, designs: seq<Design>, pairs: seq<ReplayPair>, duration: int, cooldown: int,
          top: nat)
    returns (i: nat)
    requires InDesigns(designs, pairs) && Places(raw, designs, pairs, duration, cooldown, top) && duration > 0
    requires IsLargest(TargetLists(designs, pairs), top) && top > 0 && duration - 1 > top * cooldown
    ensures i < |raw| && raw[i].offset == duration - 1 && forall l :: 0 <= l < |raw| ==> raw[l].offset <= duration - 1
  {
    hide IsPosition, Position;
    var ts := TargetLists(designs, pairs);
    i :| i < |ts| && IsPosition(ts, i, top);
    OffsetOfLargest(top, duration, raw[i].offset);
    forall l | 0 <= l < |raw|
      ensures raw[l].offset <= duration - 1
    {
      PositionIs(ts, l, Position(ts, l));
      OffsetOfOthers(Position(ts, l), top, duration, cooldown, raw[l].offset);
    }
  }

  // A stretched schedule ends on the last nanosecond.
  lemma EndsOnTime(slots: seq<ReplaySlot>, designs: seq<Design>, pairs: seq<ReplayPair>, duration: int, cooldown: int,
          top: nat)
    requires InDesigns(designs, pairs) && LaidOut(slots, designs, pairs, duration, cooldown) && duration > 0
    requires IsLargest(TargetLists(designs, pairs), top) && top > 0 && duration - 1 > top * cooldown
    ensures slots != [] && slots[|slots| - 1].offset == duration - 1
  {
    hide SortOf, Position, Places, IsLargest;
    var ts := TargetLists(designs, pairs);
    var raw: seq<ReplaySlot>, t: nat :|
      IsLargest(ts, t) && Places(raw, designs, pairs, duration, cooldown, t) && SortOf(slots, raw);
    OneLargest(ts, top, t);
    var i := PlacesLargest(raw, designs, pairs, duration, cooldown, top);
    LargestComesLast(slots, raw, i);
  }
}
