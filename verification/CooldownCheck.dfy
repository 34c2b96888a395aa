/**
 The per-target cooldown check of a schedule
 (scheduleRespectsTargetCooldown in internal/campaign/generator.go).
 */
module CooldownCheck {
  import opened Seqs
  import opened Campaign

  type DesignMap = map<string, Design>

  // The last design of each ID.
  function ByID(designs: seq<Design>): DesignMap {
    if designs == [] then map[]
    else
      var n := |designs| - 1;
      ByID(designs[..n])[designs[n].id := designs[n]]
  }

  lemma {:induction false} ByIDFinds(designs: seq<Design>, i: nat)
    requires IDsDistinct(designs) && i < |designs|
    ensures designs[i].id in ByID(designs) && ByID(designs)[designs[i].id] == designs[i]
  {
    var n := |designs| - 1;
    if i < n {
      ByIDFinds(designs[..n], i);
    }
  }

  // The targets of a slot; a slot of an unknown design is skipped.
  function TargetsOf(dm: DesignMap, s: ReplaySlot): seq<string> {
    if s.designID in dm then dm[s.designID].targets else []
  }

  // Note the targets of one slot; none of them may have been used less than cooldown ago.
  function Touch(targets: seq<string>, offset: int, cooldown: int, last: map<string, int>): Option<map<string, int>> {
    if targets == [] then Some(last)
    else if targets[0] in last && offset - last[targets[0]] < cooldown then None
    else Touch(targets[1..], offset, cooldown, last[targets[0] := offset])
  }

  function RespectsFrom(slots: seq<ReplaySlot>, dm: DesignMap, cooldown: int, last: map<string, int>): bool
    decreases slots
  {
    slots == [] ||
    var m := Touch(TargetsOf(dm, slots[0]), slots[0].offset, cooldown, last);
    m.Some? && RespectsFrom(slots[1..], dm, cooldown, m.value)
  }

  function Respects(slots: seq<ReplaySlot>, dm: DesignMap, cooldown: int): bool {
    RespectsFrom(slots, dm, cooldown, map[])
  }

  method ScheduleRespectsTargetCooldown(slots: seq<ReplaySlot>, dm: DesignMap, cooldown: int) returns (ok: bool)
    ensures ok == Respects(slots, dm, cooldown)
  {
    var last: map<string, int> := map[];
    for i := 0 to |slots|
      invariant Respects(slots, dm, cooldown) == RespectsFrom(slots[i..], dm, cooldown, last)
    {
      var targets := TargetsOf(dm, slots[i]);
      assert slots[i..][0] == slots[i] && slots[i..][1..] == slots[i + 1..];
      ghost var before := last;
      for j := 0 to |targets|
        invariant Touch(targets, slots[i].offset, cooldown, before)
               == Touch(targets[j..], slots[i].offset, cooldown, last)
      {
        assert targets[j..][0] == targets[j] && targets[j..][1..] == targets[j + 1..];
        if targets[j] in last && slots[i].offset - last[targets[j]] < cooldown {
          return false;
        }
        last := last[targets[j] := slots[i].offset];
      }
    }
    ok := true;
  }

  // ----- what the check means ---------------------------------------------------------------

  ghost predicate Share(dm: DesignMap, x: ReplaySlot, y: ReplaySlot) {
    exists t :: t in TargetsOf(dm, x) && t in TargetsOf(dm, y)
  }

  ghost predicate TargetsDistinct(dm: DesignMap) {
    forall id :: id in dm ==> Distinct(dm[id].targets)
  }

  // Any two slots on a common target are at least cooldown apart, neighbours or not.
  ghost predicate Spaced(slots: seq<ReplaySlot>, dm: DesignMap, cooldown: int) {
    forall x, y :: x in slots && y in slots && x != y && Share(dm, x, y) ==>
      x.offset - y.offset >= cooldown || y.offset - x.offset >= cooldown
  }

  ghost predicate LaterSpaced(slots: seq<ReplaySlot>, dm: DesignMap, cooldown: int) {
    forall i, j :: 0 <= i < j < |slots| && Share(dm, slots[i], slots[j]) ==>
      slots[j].offset - slots[i].offset >= cooldown
  }

  // Slot s is cooldown after the last use of each of its targets.
  ghost predicate Clear(s: ReplaySlot, dm: DesignMap, cooldown: int, last: map<string, int>) {
    forall t :: t in TargetsOf(dm, s) && t in last ==> s.offset - last[t] >= cooldown
  }

  // All targets can be used at offset, and afterwards they were.
  ghost predicate Touched(targets: seq<string>, offset: int, cooldown: int, last: map<string, int>,
          m: Option<map<string, int>>)
  {
    && (m.Some? <==> forall t :: t in targets && t in last ==> offset - last[t] >= cooldown)
    && (m.Some? ==> forall t :: t in m.value <==> t in last || t in targets)
    && (m.Some? ==> forall t :: t in m.value ==> m.value[t] == if t in targets then offset else last[t])
  }

  lemma {:induction false} TouchMeans(targets: seq<string>, offset: int, cooldown: int, last: map<string, int>)
    requires Distinct(targets)
    ensures Touched(targets, offset, cooldown, last, Touch(targets, offset, cooldown, last))
  {
    if targets != [] {
      var t0, rest := targets[0], targets[1..];
      assert targets == [t0] + rest;
      assert forall t :: t in targets <==> t == t0 || t in rest;
      assert t0 !in rest;
      if t0 in last && offset - last[t0] < cooldown {
        assert t0 in targets;
      } else {
        var next := last[t0 := offset];
        TouchMeans(rest, offset, cooldown, next);
        assert forall t :: t in rest && t in next <==> t in rest && t in last;
      }
    }
  }

  // One step of the check: the rest is clear of the updated uses exactly when it is clear
  // of the old ones and of this slot.
  lemma ClearAfter(s: ReplaySlot, x: ReplaySlot, dm: DesignMap, cooldown: int, last: map<string, int>,
          m: map<string, int>)
    requires cooldown >= 0 && Clear(s, dm, cooldown, last) && s.offset <= x.offset
    requires forall t :: t in m <==> t in last || t in TargetsOf(dm, s)
    requires forall t :: t in m ==> m[t] == if t in TargetsOf(dm, s) then s.offset else last[t]
    ensures Clear(x, dm, cooldown, m)
       <==> Clear(x, dm, cooldown, last) && (Share(dm, s, x) ==> x.offset - s.offset >= cooldown)
  {
    if Clear(x, dm, cooldown, m) {
      forall t | t in TargetsOf(dm, x) && t in last
        ensures x.offset - last[t] >= cooldown
      {
        assert t in m;
      }
      if t :| t in TargetsOf(dm, s) && t in TargetsOf(dm, x) {
        assert t in m;
      }
    }
  }

  lemma {:induction false} RespectsFromMeans(slots: seq<ReplaySlot>, dm: DesignMap, cooldown: int,
          last: map<string, int>)
    requires cooldown >= 0 && TargetsDistinct(dm) && Sorted(slots)
    ensures RespectsFrom(slots, dm, cooldown, last)
       <==> LaterSpaced(slots, dm, cooldown) && forall i :: 0 <= i < |slots| ==> Clear(slots[i], dm, cooldown, last)
    decreases slots
  {
    if slots != [] {
      var s := slots[0];
      TouchMeans(TargetsOf(dm, s), s.offset, cooldown, last);
      var m := Touch(TargetsOf(dm, s), s.offset, cooldown, last);
      assert m.Some? <==> Clear(s, dm, cooldown, last);
      if m.Some? {
        RespectsFromMeans(slots[1..], dm, cooldown, m.value);
        forall i | 0 < i < |slots|
          ensures Clear(slots[i], dm, cooldown, m.value)
             <==> Clear(slots[i], dm, cooldown, last)
                  && (Share(dm, s, slots[i]) ==> slots[i].offset - s.offset >= cooldown)
        {
          ClearAfter(s, slots[i], dm, cooldown, last, m.value);
        }
        RestSpaced(slots, dm, cooldown, last, m.value);
      }
    }
  }

  lemma RestSpaced(slots: seq<ReplaySlot>, dm: DesignMap, cooldown: int, last: map<string, int>, m: map<string, int>)
    requires slots != [] && Clear(slots[0], dm, cooldown, last)
    requires forall i :: 0 < i < |slots| ==>
      (Clear(slots[i], dm, cooldown, m)
       <==> Clear(slots[i], dm, cooldown, last)
            && (Share(dm, slots[0], slots[i]) ==> slots[i].offset - slots[0].offset >= cooldown))
    ensures (LaterSpaced(slots[1..], dm, cooldown)
             && forall i :: 0 <= i < |slots| - 1 ==> Clear(slots[1..][i], dm, cooldown, m))
       <==> (LaterSpaced(slots, dm, cooldown)
             && forall i :: 0 <= i < |slots| ==> Clear(slots[i], dm, cooldown, last))
  {
    var rest := slots[1..];
    if LaterSpaced(rest, dm, cooldown) && forall i :: 0 <= i < |rest| ==> Clear(rest[i], dm, cooldown, m) {
      forall i | 0 < i < |slots|
        ensures Clear(slots[i], dm, cooldown, m)
      {
        assert slots[i] == rest[i - 1];
      }
      forall i, j | 0 <= i < j < |slots| && Share(dm, slots[i], slots[j])
        ensures slots[j].offset - slots[i].offset >= cooldown
      {
        if i > 0 {
          assert rest[i - 1] == slots[i] && rest[j - 1] == slots[j];
        }
      }
    }
    if LaterSpaced(slots, dm, cooldown) && forall i :: 0 <= i < |slots| ==> Clear(slots[i], dm, cooldown, last) {
      forall i | 0 <= i < |rest|
        ensures Clear(rest[i], dm, cooldown, m)
      {
        assert rest[i] == slots[i + 1];
      }
    }
  }

  lemma LaterSpacedIsSpaced(slots: seq<ReplaySlot>, dm: DesignMap, cooldown: int)
    requires cooldown > 0 && Sorted(slots) && Distinct(slots)
    ensures LaterSpaced(slots, dm, cooldown) <==> Spaced(slots, dm, cooldown)
  {
    if Spaced(slots, dm, cooldown) {
      forall i, j | 0 <= i < j < |slots| && Share(dm, slots[i], slots[j])
        ensures slots[j].offset - slots[i].offset >= cooldown
      {
        assert slots[i] in slots && slots[j] in slots && slots[i] != slots[j];
      }
    }
    if LaterSpaced(slots, dm, cooldown) {
      forall x, y | x in slots && y in slots && x != y && Share(dm, x, y)
        ensures x.offset - y.offset >= cooldown || y.offset - x.offset >= cooldown
      {
        var i, j :| 0 <= i < |slots| && 0 <= j < |slots| && slots[i] == x && slots[j] == y;
        assert Share(dm, y, x);
      }
    }
  }

  // On a sorted schedule of different slots, looking only at the previous use of each
  // target decides the spacing of all pairs.
  lemma RespectsMeansSpaced(slots: seq<ReplaySlot>, dm: DesignMap, cooldown: int)
    requires cooldown > 0 && TargetsDistinct(dm) && Sorted(slots) && Distinct(slots)
    ensures Respects(slots, dm, cooldown) <==> Spaced(slots, dm, cooldown)
  {
    RespectsFromMeans(slots, dm, cooldown, map[]);
    LaterSpacedIsSpaced(slots, dm, cooldown);
  }

  lemma SpacedOrderFree(a: seq<ReplaySlot>, b: seq<ReplaySlot>, dm: DesignMap, cooldown: int)
    requires multiset(a) == multiset(b) && Spaced(a, dm, cooldown)
    ensures Spaced(b, dm, cooldown)
  {
    forall x, y | x in b && y in b && x != y && Share(dm, x, y)
      ensures x.offset - y.offset >= cooldown || y.offset - x.offset >= cooldown
    {
      assert x in multiset(a) && y in multiset(a);
    }
  }
}
