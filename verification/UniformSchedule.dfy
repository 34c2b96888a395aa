/**
 The jittered grid of generateUniformSchedule (internal/campaign/generator.go). A draw is
 an arbitrary real from 0 up to, but not including, 1; the jitter is exact real arithmetic
 truncated toward zero, where the original rounds to float64.
 */
module UniformSchedule {
  import opened Arith
  import opened Seqs
  import opened Campaign

  const MILLISECOND := 1_000_000

  function Truncate(x: real): int {
    if x >= 0.0 then x.Floor else -((-x).Floor)
  }

  ghost predicate Draws(us: seq<real>, n: nat) {
    |us| == n && forall i :: 0 <= i < n ==> 0.0 <= us[i] < 1.0
  }

  lemma Product(a: real, b: real)
    requires a >= 0.0 && b >= 0.0
    ensures a * b >= 0.0 && (a > 0.0 && b > 0.0 ==> a * b > 0.0)
  {
  }

  lemma ScaleBound(w: real, f: real, x: real)
    requires w >= 0.0 && -1.0 <= 4.0 * f < 1.0 && x == w * f
    ensures -w <= 4.0 * x <= w && (w > 0.0 ==> 4.0 * x < w)
  {
    Product(w, 4.0 * f + 1.0);
    Product(w, 1.0 - 4.0 * f);
    assert w * (4.0 * f + 1.0) == 4.0 * x + w;
    assert w * (1.0 - 4.0 * f) == w - 4.0 * x;
  }

  // At most a quarter of the slot width either way, and less than a quarter above.
  predicate JitterOk(j: int, width: int) {
    -width <= 4 * j <= width && (width > 0 ==> 4 * j < width)
  }

  // A bound by an integer survives truncation, on either side.
  lemma TruncateBound(x: real, width: int, w: real)
    requires w == width as real && -w <= 4.0 * x <= w && (w > 0.0 ==> 4.0 * x < w)
    ensures JitterOk(Truncate(x), width)
  {
    var n := if x >= 0.0 then x.Floor else (-x).Floor;
    var r := n as real;
    if x >= 0.0 {
      assert r <= x;
      assert 4.0 * r <= w && (w > 0.0 ==> 4.0 * r < w);
    } else {
      assert r <= -x;
      assert 4.0 * r <= w;
    }
    assert (4 * n) as real == 4.0 * r;
    assert n >= 0;
  }

  lemma FractionIsOk(width: int, w: real, f: real)
    requires w == width as real && width >= 0 && -1.0 <= 4.0 * f < 1.0
    ensures JitterOk(Truncate(w * f), width)
  {
    var x := w * f;
    ScaleBound(w, f, x);
    TruncateBound(x, width, w);
  }

  // The jitter for a slot width w and a fraction of it.
  function Jitter(width: int, w: real, fraction: real): (j: int)
    requires width >= 0 && w == width as real && -1.0 <= 4.0 * fraction < 1.0
    ensures JitterOk(j, width)
  {
    FractionIsOk(width, w, fraction);
    Truncate(w * fraction)
  }

  function Fraction(u: real): (f: real)
    requires 0.0 <= u < 1.0
    ensures -1.0 <= 4.0 * f < 1.0
  {
    u * 0.5 - 0.25
  }

  function Jitters(width: int, w: real, us: seq<real>): (js: seq<int>)
    requires width >= 0 && w == width as real && forall i :: 0 <= i < |us| ==> 0.0 <= us[i] < 1.0
    ensures |js| == |us| && JittersOk(js, width)
  {
    seq(|us|, i requires 0 <= i < |us| => Jitter(width, w, Fraction(us[i])))
  }

  predicate JittersOk(js: seq<int>, width: int) {
    forall i :: 0 <= i < |js| ==> JitterOk(js[i], width)
  }

  // The offset of grid position i: base plus jitter, clamped at both ends.
  function Offset(i: nat, width: int, duration: int, jitter: int): int {
    var o := i * width + jitter;
    var o1 := if o < 0 then 0 else o;
    if o1 >= duration then duration - MILLISECOND else o1
  }

  ghost function RawSlots(designs: seq<Design>, pairs: seq<ReplayPair>, duration: int,
          js: seq<int>): (slots: seq<ReplaySlot>)
    requires InDesigns(designs, pairs) && |js| == |pairs|
    ensures |slots| == |pairs|
  {
    seq(|pairs|, i requires 0 <= i < |pairs| =>
      ReplaySlot(designs[pairs[i].design].id, pairs[i].replay, Offset(i, duration / |pairs|, duration, js[i])))
  }

  // ----- what the grid is, in plain terms -------------------------------------------------------

  // j is x without its fractional part.
  predicate IsTruncated(j: int, x: real) {
    if x >= 0.0 then j as real <= x < j as real + 1.0 else j as real - 1.0 < x <= j as real
  }

  // The grid point moved by the jitter, but not before the start.
  ghost predicate IsMoved(point: int, jitter: real, x: int) {
    exists j :: IsTruncated(j, jitter) && x == if point + j < 0 then 0 else point + j
  }

  // From a quarter of a slot early to a quarter late.
  function DrawnJitter(width: int, u: real): real {
    width as real * (u / 2.0 - 0.25)
  }

  ghost predicate IsGridOffset(i: nat, width: int, u: real, x: int) {
    IsMoved(i * width, DrawnJitter(width, u), x)
  }

  ghost predicate OnGrid(raw: seq<ReplaySlot>, designs: seq<Design>, pairs: seq<ReplayPair>, duration: int,
          us: seq<real>)
    requires InDesigns(designs, pairs) && |us| == |pairs| && pairs != []
  {
    |raw| == |pairs| && forall i :: 0 <= i < |pairs| ==>
      && raw[i].designID == designs[pairs[i].design].id && raw[i].index == pairs[i].replay
      && IsGridOffset(i, duration / |pairs|, us[i], raw[i].offset)
  }

  lemma TruncateMeans(x: real)
    ensures IsTruncated(Truncate(x), x)
  {
  }

  lemma JitterMeans(width: int, u: real)
    requires width >= 0 && 0.0 <= u < 1.0
    ensures IsTruncated(Jitter(width, width as real, Fraction(u)), DrawnJitter(width, u))
  {
    assert Fraction(u) == u / 2.0 - 0.25;
    TruncateMeans(width as real * Fraction(u));
  }

  lemma OffsetIsOnGrid(i: nat, width: int, duration: int, u: real)
    requires width >= 0 && i * width + width <= duration && duration > 0 && 0.0 <= u < 1.0
    ensures IsGridOffset(i, width, u, Offset(i, width, duration, Jitter(width, width as real, Fraction(u))))
  {
    var j := Jitter(width, width as real, Fraction(u));
    hide IsTruncated, IsMoved, Offset, DrawnJitter;
    JitterMeans(width, u);
    GridPoint(i, width);
    OffsetBelow(i, i * width, width, duration, j);
    MovedOffset(i, width, duration, j, DrawnJitter(width, u));
  }

  lemma OffsetBelow(i: nat, base: int, width: int, duration: int, j: int)
    requires base == i * width && width >= 0 && base + width <= duration && JitterOk(j, width) && duration > 0
    requires i > 0 ==> base >= width
    ensures base + j < duration
  {
    OffsetOnGrid(i, base, width, duration, j);
  }

  lemma MovedOffset(i: nat, width: int, duration: int, j: int, jitter: real)
    requires IsTruncated(j, jitter) && i * width + j < duration && duration > 0
    ensures IsMoved(i * width, jitter, Offset(i, width, duration, j))
  {
  }

  lemma RawIsOnGrid(designs: seq<Design>, pairs: seq<ReplayPair>, duration: int, us: seq<real>)
    requires InDesigns(designs, pairs) && Draws(us, |pairs|) && duration > 0 && pairs != []
    ensures var width := duration / |pairs|;
            OnGrid(RawSlots(designs, pairs, duration, Jitters(width, width as real, us)), designs, pairs, duration, us)
  {
    var width := duration / |pairs|;
    var js := Jitters(width, width as real, us);
    var raw := RawSlots(designs, pairs, duration, js);
    forall i | 0 <= i < |pairs|
      ensures IsGridOffset(i, width, us[i], raw[i].offset)
    {
      GridFits(i, |pairs|, duration);
      OffsetIsOnGrid(i, width, duration, us[i]);
    }
  }

  method GenerateUniformSchedule(designs: seq<Design>, pairs: seq<ReplayPair>, duration: int, us: seq<real>)
    returns (slots: seq<ReplaySlot>)
    requires InDesigns(designs, pairs) && Draws(us, |pairs|) && duration > 0 && pairs != []
    ensures var width := duration / |pairs|;
            var raw := RawSlots(designs, pairs, duration, Jitters(width, width as real, us));
            SortOf(slots, raw) && (duration >= |pairs| ==> slots == raw)
    ensures exists raw :: OnGrid(raw, designs, pairs, duration, us) && SortOf(slots, raw)
    ensures duration >= |pairs| ==> OnGrid(slots, designs, pairs, duration, us)
    ensures Holds(slots, designs, pairs) && InRange(slots, duration)
  {
    RawIsOnGrid(designs, pairs, duration, us);
    hide OnGrid;
    var total := |pairs|;
    var width := duration / total;
    ghost var js := Jitters(width, width as real, us);
    slots := [];
    for i := 0 to total
      invariant slots == RawSlots(designs, pairs, duration, js)[..i]
    {
      var offset := i * width + Jitter(width, width as real, Fraction(us[i]));
      if offset < 0 {
        offset := 0;
      }
      if offset >= duration {
        offset := duration - MILLISECOND;
      }
      slots := slots + [ReplaySlot(designs[pairs[i].design].id, pairs[i].replay, offset)];
    }
    slots := FinishGrid(designs, pairs, duration, js, slots);
  }

  // The grid is sorted; with a positive slot width it already is in order.
  method FinishGrid(designs: seq<Design>, pairs: seq<ReplayPair>, duration: int, ghost js: seq<int>,
          raw: seq<ReplaySlot>)
    returns (slots: seq<ReplaySlot>)
    requires InDesigns(designs, pairs) && duration > 0 && pairs != []
    requires |js| == |pairs| && JittersOk(js, duration / |pairs|) && raw == RawSlots(designs, pairs, duration, js)
    ensures SortOf(slots, raw) && (duration >= |pairs| ==> slots == raw)
    ensures Holds(slots, designs, pairs) && InRange(slots, duration)
  {
    slots := SortSlice(raw);
    RawHolds(designs, pairs, duration, js);
    SortHolds(slots, raw, designs, pairs);
    GridGaps(designs, pairs, duration, js);
    forall i | 0 <= i < |slots|
      ensures 0 <= slots[i].offset < duration
    {
      assert slots[i] in multiset(slots);
      assert slots[i] in raw;
    }
    if duration >= |pairs| {
      SortOfIncreasing(slots, raw);
    }
  }

  lemma RawHolds(designs: seq<Design>, pairs: seq<ReplayPair>, duration: int, js: seq<int>)
    requires InDesigns(designs, pairs) && |js| == |pairs|
    ensures Holds(RawSlots(designs, pairs, duration, js), designs, pairs)
  {
    assert Map(Key, RawSlots(designs, pairs, duration, js)) == PairKeys(designs, pairs);
  }

  ghost predicate InRange(slots: seq<ReplaySlot>, duration: int) {
    forall i :: 0 <= i < |slots| ==> 0 <= slots[i].offset < duration
  }

  lemma GridFits(i: nat, n: nat, duration: int)
    requires i < n && duration > 0
    ensures var width := duration / n;
            width >= 0 && i * width + width <= duration && (width > 0 <==> duration >= n)
  {
    var width := duration / n;
    assert n * width <= duration < n * width + n;
    DivLower(duration, n, 0);
    MulStep(i, n, width);
    if width == 0 {
      assert n * width == 0;
    } else {
      MulMonotone(1, width, n);
    }
  }

  // No jitter reaches the upper clamp: the offset for the grid point base lies within a
  // quarter of the width of it, or is 0 when the point is 0.
  lemma OffsetOnGrid(i: nat, base: int, width: int, duration: int, j: int)
    requires base == i * width && width >= 0 && (i > 0 ==> base >= width) && base + width <= duration
    requires duration > 0 && JitterOk(j, width)
    ensures var o := Offset(i, width, duration, j);
            0 <= o < duration && base + j < duration
            && 4 * base - width <= 4 * o <= 4 * base + width
            && (width > 0 ==> 4 * o < 4 * base + width)
  {
  }

  lemma GridPoint(i: nat, width: int)
    requires width >= 0
    ensures i * width >= 0 && (i > 0 ==> i * width >= width)
  {
    if i > 0 {
      var k: nat := i - 1;
      assert k * width >= 0 && i * width == k * width + width;
    }
  }

  // With a positive slot width, neighbours in the grid are at least half a slot apart
  // before any sorting, for any draws, so the grid is already in order.
  lemma GridGaps(designs: seq<Design>, pairs: seq<ReplayPair>, duration: int, js: seq<int>)
    requires InDesigns(designs, pairs) && duration > 0 && pairs != []
    requires |js| == |pairs| && JittersOk(js, duration / |pairs|)
    ensures var raw := RawSlots(designs, pairs, duration, js); var width := duration / |pairs|;
            InRange(raw, duration)
            && (duration >= |pairs| ==>
                  Increasing(raw)
                  && forall i, j :: 0 <= i < j < |raw| && j == i + 1 ==> 2 * (raw[j].offset - raw[i].offset) >= width)
  {
    var n := |pairs|;
    var raw, width := RawSlots(designs, pairs, duration, js), duration / n;
    forall i | 0 <= i < n
      ensures 0 <= raw[i].offset < duration
      ensures 4 * (i * width) - width <= 4 * raw[i].offset <= 4 * (i * width) + width
      ensures width > 0 ==> 4 * raw[i].offset < 4 * (i * width) + width
    {
      GridFits(i, n, duration);
      GridPoint(i, width);
      OffsetOnGrid(i, i * width, width, duration, js[i]);
    }
    GridFits(0, n, duration);
    forall i, j | 0 <= i < j < n && width > 0
      ensures raw[i].offset < raw[j].offset
      ensures j == i + 1 ==> 2 * (raw[j].offset - raw[i].offset) >= width
    {
      GridSteps(i, j, width);
    }
  }

  lemma GridSteps(i: nat, j: nat, width: int)
    requires i < j && width >= 0
    ensures j * width >= i * width + width
    ensures j == i + 1 ==> j * width == i * width + width
  {
    var k: nat := j - i - 1;
    assert k * width >= 0;
    assert j * width == (i + 1 + k) * width == i * width + width + k * width;
  }
}
