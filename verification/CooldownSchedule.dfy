/**
 The cooldown-aware layout of generateCooldownSchedule (internal/campaign/generator.go),
 and when it succeeds. Stretching an offset is exact: the product with the ratio of the
 spans, truncated, where the original rounds to float64 before it truncates.
 */
module CooldownSchedule {
  import opened Seqs
  import opened Campaign
  import opened CooldownCheck
  import opened CooldownLayout

  datatype ScheduleResult = Scheduled(slots: seq<ReplaySlot>) | Infeasible(target: string) | InternalError

  ghost predicate Succeeds(designs: seq<Design>, pairs: seq<ReplayPair>, duration: int, cooldown: int)
    requires InDesigns(designs, pairs)
  {
    (forall t :: !TooMany(TargetLists(designs, pairs), t, duration, cooldown))
    && Respects(StableSort(Layout(designs, pairs, duration, cooldown)), ByID(designs), cooldown)
  }

  // ----- the algorithm ----------------------------------------------------------------------

  function Get(m: map<string, nat>, t: string): nat {
    if t in m then m[t] else 0
  }

  // Adds one use of each target to the counts.
  method CountUses(counts: map<string, nat>, targets: seq<string>) returns (r: map<string, nat>)
    ensures forall t :: Get(r, t) == Get(counts, t) + multiset(targets)[t]
    ensures forall t :: t in r <==> t in counts || t in targets
  {
    r := counts;
    for j := 0 to |targets|
      invariant forall t :: Get(r, t) == Get(counts, t) + multiset(targets[..j])[t]
      invariant forall t :: t in r <==> t in counts || t in targets[..j]
    {
      assert targets[..j + 1] == targets[..j] + [targets[j]];
      r := r[targets[j] := Get(r, targets[j]) + 1];
    }
    assert targets[..|targets|] == targets;
  }

  // The largest offset that the uses so far ask of any of the targets.
  method NextOffset(counts: map<string, nat>, targets: seq<string>, cooldown: int, ghost before: seq<seq<string>>)
    returns (offset: int)
    requires cooldown > 0 && forall t :: Get(counts, t) == Uses(before, t)
    ensures offset == MaxUses(targets, before) * cooldown
  {
    offset := 0;
    for j := 0 to |targets|
      invariant offset == MaxUses(targets[..j], before) * cooldown
    {
      assert targets[..j + 1][..j] == targets[..j];
      var candidate := Get(counts, targets[j]) * cooldown;
      ScaleOrder(Uses(before, targets[j]), MaxUses(targets[..j], before), cooldown);
      if candidate > offset {
        offset := candidate;
      }
    }
    assert targets[..|targets|] == targets;
  }

  method FindTooMany(counts: map<string, nat>, duration: int, cooldown: int, ghost ts: seq<seq<string>>)
    returns (culprit: Option<string>)
    requires forall t :: Get(counts, t) == Uses(ts, t)
    requires forall t :: t in counts ==> counts[t] > 0
    ensures culprit.Some? ==> TooMany(ts, culprit.value, duration, cooldown)
    ensures culprit.None? ==> forall t :: !TooMany(ts, t, duration, cooldown)
  {
    var todo := counts.Keys;
    while todo != {}
      invariant todo <= counts.Keys
      invariant forall t :: t in counts && t !in todo ==> !TooMany(ts, t, duration, cooldown)
      decreases todo
    {
      ghost var some := Member(todo);
      var t :| t in todo;
      var requiredSpan := (counts[t] - 1) * cooldown;
      assert Get(counts, t) == Uses(ts, t);
      if requiredSpan >= duration {
        return Some(t);
      }
      todo := todo - {t};
    }
    forall t
      ensures !TooMany(ts, t, duration, cooldown)
    {
      assert Get(counts, t) == Uses(ts, t);
    }
    culprit := None;
  }

  method GenerateCooldownSchedule(designs: seq<Design>, pairs: seq<ReplayPair>, duration: int, cooldown: int)
    returns (r: ScheduleResult)
    requires InDesigns(designs, pairs) && cooldown > 0
    ensures r.Scheduled? <==> Succeeds(designs, pairs, duration, cooldown)
    ensures r.Scheduled? ==> r.slots == StableSort(Layout(designs, pairs, duration, cooldown))
    ensures r.Scheduled? ==> LaidOut(r.slots, designs, pairs, duration, cooldown)
    ensures r.Infeasible? <==> exists t :: TooMany(TargetLists(designs, pairs), t, duration, cooldown)
    ensures r.Infeasible? ==> TooMany(TargetLists(designs, pairs), r.target, duration, cooldown)
  {
    ghost var ts := TargetLists(designs, pairs);
    var counts: map<string, nat> := map[];
    for i := 0 to |pairs|
      invariant forall t :: Get(counts, t) == Uses(ts[..i], t)
      invariant forall t :: t in counts ==> counts[t] > 0
    {
      assert ts[..i + 1] == ts[..i] + [ts[i]];
      forall t { UsesSnoc(ts[..i], ts[i], t); }
      ghost var before := counts;
      counts := CountUses(counts, designs[pairs[i].design].targets);
      assert forall t :: t in counts ==> Get(counts, t) > 0;
    }
    assert ts[..|pairs|] == ts;
    var culprit := FindTooMany(counts, duration, cooldown, ts);
    if culprit.Some? {
      return Infeasible(culprit.value);
    }
    var slots := PlaceAndStretch(designs, pairs, duration, cooldown);
    var sorted := StableSort(slots);
    var ok := ScheduleRespectsTargetCooldown(sorted, ByID(designs), cooldown);
    LayoutIsLaidOut(designs, pairs, duration, cooldown);
    r := if ok then Scheduled(sorted) else InternalError;
  }

  method PlaceAndStretch(designs: seq<Design>, pairs: seq<ReplayPair>, duration: int, cooldown: int)
    returns (out: seq<ReplaySlot>)
    requires InDesigns(designs, pairs) && cooldown > 0
    ensures out == Layout(designs, pairs, duration, cooldown)
  {
    var slots, latest := Place(designs, pairs, cooldown);
    StretchInPlace(slots, latest, duration);
    out := slots[..];
  }

  // The offset of replay i, and the uses after it.
  method PlaceOne(positions: map<string, nat>, targets: seq<string>, cooldown: int, ghost ts: seq<seq<string>>,
          ghost i: nat)
    returns (offset: int, after: map<string, nat>)
    requires i < |ts| && ts[i] == targets && cooldown > 0 && forall t :: Get(positions, t) == Uses(ts[..i], t)
    ensures offset == Position(ts, i) * cooldown
    ensures forall t :: Get(after, t) == Uses(ts[..i + 1], t)
  {
    offset := NextOffset(positions, targets, cooldown, ts[..i]);
    assert ts[..i + 1] == ts[..i] + [ts[i]];
    forall t { UsesSnoc(ts[..i], ts[i], t); }
    after := CountUses(positions, targets);
  }

  method Place(designs: seq<Design>, pairs: seq<ReplayPair>, cooldown: int)
    returns (slots: array<ReplaySlot>, latest: int)
    requires InDesigns(designs, pairs) && cooldown > 0
    ensures fresh(slots) && slots.Length == |pairs|
    ensures var ts := TargetLists(designs, pairs);
            latest == Latest(ts, |ts|, cooldown)
            && forall k :: 0 <= k < |pairs| ==> slots[k] == SlotAt(designs, pairs, k, Position(ts, k) * cooldown)
  {
    ghost var ts := TargetLists(designs, pairs);
    var n := |pairs|;
    slots := new ReplaySlot[n](_ => ReplaySlot("", 0, 0));
    var positions: map<string, nat> := map[];
    latest := 0;
    for i := 0 to n
      invariant forall t :: Get(positions, t) == Uses(ts[..i], t)
      invariant latest == Latest(ts, i, cooldown)
      invariant forall k :: 0 <= k < i ==> slots[k] == SlotAt(designs, pairs, k, Position(ts, k) * cooldown)
    {
      var offset;
      offset, positions := PlaceOne(positions, designs[pairs[i].design].targets, cooldown, ts, i);
      if offset > latest {
        latest := offset;
      }
      slots[i] := SlotAt(designs, pairs, i, offset);
    }
  }

  method StretchInPlace(slots: array<ReplaySlot>, latest: int, duration: int)
    modifies slots
    ensures forall k :: 0 <= k < slots.Length ==>
              slots[k] == old(slots[k]).(offset := Stretch(old(slots[k].offset), latest, duration))
  {
    if latest > 0 {
      var scaleTo := duration - 1;
      if scaleTo > latest {
        for i := 0 to slots.Length
          invariant forall k :: 0 <= k < i ==>
            slots[k] == old(slots[k]).(offset := Stretch(old(slots[k].offset), latest, duration))
          invariant forall k :: i <= k < slots.Length ==> slots[k] == old(slots[k])
        {
          slots[i] := slots[i].(offset := (slots[i].offset * scaleTo) / latest);
        }
      }
    }
  }
}
