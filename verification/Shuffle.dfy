/**
 The Fisher-Yates shuffle of generateSchedule (internal/campaign/generator.go). The draw
 for position i is an arbitrary number from 0 to i.
 */
module Shuffle {
  import opened Seqs

  function Swap<T>(a: seq<T>, i: nat, j: nat): seq<T>
    requires i < |a| && j < |a|
  {
    a[i := a[j]][j := a[i]]
  }

  // One draw per position; position 0 has no choice.
  ghost predicate Draws(c: seq<nat>, n: nat) {
    |c| == n && forall i :: 0 <= i < n ==> c[i] <= i
  }

  // The swaps at positions i, i - 1, ..., 1.
  ghost function ShuffleDown<T>(a: seq<T>, c: seq<nat>, i: nat): (r: seq<T>)
    requires Draws(c, |a|) && (i < |a| || i == 0)
    ensures |r| == |a|
    decreases i
  {
    if i == 0 then a else ShuffleDown(Swap(a, i, c[i]), c, i - 1)
  }

  ghost function Shuffled<T>(a: seq<T>, c: seq<nat>): (r: seq<T>)
    requires Draws(c, |a|)
    ensures |r| == |a|
  {
    ShuffleDown(a, c, if a == [] then 0 else |a| - 1)
  }

  method ShuffleInPlace<T>(a: array<T>, c: seq<nat>)
    requires Draws(c, a.Length)
    modifies a
    ensures a[..] == Shuffled(old(a[..]), c)
    // The last position is settled by the first draw.
    ensures a.Length > 0 ==> a[a.Length - 1] == old(a[c[a.Length - 1]])
  {
    if a.Length > 0 {
      ShuffleSettles(a[..], c, a.Length - 1, a.Length - 1);
    }
    var i := a.Length - 1;
    while i > 0
      invariant a.Length > 0 ==> 0 <= i < a.Length
      invariant Shuffled(old(a[..]), c) == ShuffleDown(a[..], c, if i < 0 then 0 else i)
    {
      var j := c[i];
      ghost var before := a[..];
      a[i], a[j] := a[j], a[i];
      assert a[..] == Swap(before, i, j);
      i := i - 1;
    }
  }

  lemma SwapPermutes<T>(a: seq<T>, i: nat, j: nat)
    requires i < |a| && j < |a|
    ensures multiset(Swap(a, i, j)) == multiset(a)
  {
  }

  // A shuffle is a permutation of its input.
  lemma {:induction false} ShufflePermutes<T>(a: seq<T>, c: seq<nat>, i: nat)
    requires Draws(c, |a|) && (i < |a| || i == 0)
    ensures multiset(ShuffleDown(a, c, i)) == multiset(a)
    decreases i
  {
    if i > 0 {
      SwapPermutes(a, i, c[i]);
      ShufflePermutes(Swap(a, i, c[i]), c, i - 1);
    }
  }

  // Positions above i are final, and position i is settled by draw i.
  lemma {:induction false} ShuffleSettles<T>(a: seq<T>, c: seq<nat>, i: nat, k: nat)
    requires Draws(c, |a|) && i <= k < |a|
    ensures ShuffleDown(a, c, i)[k] == if k > i then a[k] else a[c[i]]
    decreases i
  {
    if i > 0 {
      ShuffleSettles(Swap(a, i, c[i]), c, i - 1, k);
    }
  }

  // Different draws give different results.
  lemma {:induction false} ShuffleInjective<T>(a: seq<T>, c: seq<nat>, d: seq<nat>, i: nat, k: nat)
    requires Distinct(a) && Draws(c, |a|) && Draws(d, |a|) && k <= i < |a|
    requires ShuffleDown(a, c, i) == ShuffleDown(a, d, i)
    ensures c[k] == d[k]
    decreases i
  {
    ShuffleSettles(a, c, i, i);
    ShuffleSettles(a, d, i, i);
    if k < i {
      ShuffleInjective(Swap(a, i, c[i]), c, d, i - 1, k);
    }
  }

  // Every arrangement of the elements is reached by some draws.
  lemma {:induction false} ShuffleReaches<T>(a: seq<T>, b: seq<T>, i: nat) returns (c: seq<nat>)
    requires |a| == |b| && i < |a| && multiset(a[..i + 1]) == multiset(b[..i + 1]) && a[i + 1..] == b[i + 1..]
    ensures Draws(c, |a|) && ShuffleDown(a, c, i) == b
    decreases i
  {
    if i == 0 {
      assert a[0] == b[0] by {
        assert a[..1] == [a[0]] && b[..1] == [b[0]];
        assert a[0] in multiset(a[..1]);
        assert a[0] in b[..1];
      }
      assert a == a[..1] + a[1..] && b == b[..1] + b[1..];
      c := seq(|a|, k => 0);
    } else {
      assert b[..i + 1][i] == b[i];
      assert b[i] in multiset(b[..i + 1]);
      assert b[i] in a[..i + 1];
      var j :| 0 <= j <= i && a[j] == b[i];
      var s := Swap(a, i, j);
      SwapPrefix(a, b, i, j);
      var d := ShuffleReaches(s, b, i - 1);
      c := d[i := j];
      DrawsAboveUnused(s, d, c, i - 1);
    }
  }

  lemma SameLast<T>(p: seq<T>, q: seq<T>, e: T)
    requires multiset(p + [e]) == multiset(q + [e])
    ensures multiset(p) == multiset(q)
  {
    assert multiset(p) == multiset(p + [e]) - multiset{e};
    assert multiset(q) == multiset(q + [e]) - multiset{e};
  }

  lemma SwapPrefix<T>(a: seq<T>, b: seq<T>, i: nat, j: nat)
    requires |a| == |b| && j <= i < |a| && i > 0 && a[j] == b[i]
    requires multiset(a[..i + 1]) == multiset(b[..i + 1]) && a[i + 1..] == b[i + 1..]
    ensures multiset(Swap(a, i, j)[..i]) == multiset(b[..i]) && Swap(a, i, j)[i..] == b[i..]
  {
    SwapFront(a, i, j);
    assert b[..i] + [b[i]] == b[..i + 1];
    SameLast(Swap(a, i, j)[..i], b[..i], b[i]);
    SwapBack(a, b, i, j);
  }

  lemma SwapFront<T>(a: seq<T>, i: nat, j: nat)
    requires j <= i < |a|
    ensures multiset(Swap(a, i, j)[..i] + [a[j]]) == multiset(a[..i + 1])
  {
    SwapPermutes(a[..i + 1], i, j);
    assert Swap(a, i, j)[..i] + [a[j]] == Swap(a[..i + 1], i, j);
  }

  lemma SwapBack<T>(a: seq<T>, b: seq<T>, i: nat, j: nat)
    requires |a| == |b| && j <= i < |a| && a[j] == b[i] && a[i + 1..] == b[i + 1..]
    ensures Swap(a, i, j)[i..] == b[i..]
  {
    assert Swap(a, i, j)[i..] == [b[i]] + a[i + 1..];
    assert b[i..] == [b[i]] + b[i + 1..];
  }

  lemma {:induction false} DrawsAboveUnused<T>(a: seq<T>, c: seq<nat>, d: seq<nat>, i: nat)
    requires Draws(c, |a|) && Draws(d, |a|) && i < |a| && forall k :: 0 <= k <= i ==> c[k] == d[k]
    ensures ShuffleDown(a, c, i) == ShuffleDown(a, d, i)
    decreases i
  {
    if i > 0 {
      DrawsAboveUnused(Swap(a, i, c[i]), c, d, i - 1);
    }
  }

  ghost predicate Leads<T>(a: seq<T>, c: seq<nat>, b: seq<T>) {
    Draws(c, |a|) && Shuffled(a, c) == b
  }

  // The loop is a bijection between draws and arrangements: for distinct elements, each
  // permutation, and nothing else, comes from exactly one sequence of draws.
  lemma ShuffleBijection<T>(a: seq<T>, b: seq<T>)
    requires Distinct(a)
    ensures multiset(a) == multiset(b) <==> exists c :: Leads(a, c, b)
    ensures forall c, d :: Leads(a, c, b) && Leads(a, d, b) ==> c == d
  {
    if c :| Leads(a, c, b) {
      ShufflePermutes(a, c, if a == [] then 0 else |a| - 1);
    }
    if multiset(a) == multiset(b) {
      assert |multiset(a)| == |a| && |multiset(b)| == |b|;
      if a == [] {
        assert Leads(a, [], b);
      } else {
        assert a[..|a|] == a && b[..|a|] == b;
        var c := ShuffleReaches(a, b, |a| - 1);
        assert Leads(a, c, b);
      }
    }
    forall c, d | Leads(a, c, b) && Leads(a, d, b)
      ensures c == d
    {
      forall k | 0 <= k < |a|
        ensures c[k] == d[k]
      {
        ShuffleInjective(a, c, d, |a| - 1, k);
      }
    }
  }
}
