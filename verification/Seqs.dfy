/** Facts about sequences that several components share. */
module Seqs {

  datatype Option<+T> = None | Some(value: T)

  function Flatten<T>(xss: seq<seq<T>>): seq<T> {
    if xss == [] then [] else xss[0] + Flatten(xss[1..])
  }

  lemma {:induction false} FlattenAppend<T>(xss: seq<seq<T>>, yss: seq<seq<T>>)
    ensures Flatten(xss + yss) == Flatten(xss) + Flatten(yss)
  {
    if xss == [] {
      assert xss + yss == yss;
    } else {
      assert (xss + yss)[1..] == xss[1..] + yss;
      FlattenAppend(xss[1..], yss);
    }
  }

  lemma FlattenOne<T>(xs: seq<T>)
    ensures Flatten([xs]) == xs
  {
    assert [xs][1..] == [];
    assert xs + [] == xs;
  }

  lemma FlattenSnoc<T>(xss: seq<seq<T>>, xs: seq<T>)
    ensures Flatten(xss + [xs]) == Flatten(xss) + xs
  {
    FlattenAppend(xss, [xs]);
    FlattenOne(xs);
  }

  // Piece k of a flattened sequence is the slice between two prefix lengths.
  lemma FlattenPiece<T>(xss: seq<seq<T>>, k: nat)
    requires k < |xss|
    ensures |Flatten(xss[..k + 1])| == |Flatten(xss[..k])| + |xss[k]|
    ensures |Flatten(xss[..k + 1])| <= |Flatten(xss)|
    ensures Flatten(xss)[|Flatten(xss[..k])|..|Flatten(xss[..k + 1])|] == xss[k]
  {
    assert xss[..k + 1] == xss[..k] + [xss[k]];
    FlattenSnoc(xss[..k], xss[k]);
    assert xss == xss[..k + 1] + xss[k + 1..];
    FlattenAppend(xss[..k + 1], xss[k + 1..]);
  }

  function Total(ns: seq<nat>): nat {
    if ns == [] then 0 else ns[0] + Total(ns[1..])
  }

  lemma {:induction false} TotalUpdate(ns: seq<nat>, i: nat, n: nat)
    requires i < |ns|
    ensures Total(ns[i := n]) == Total(ns) - ns[i] + n
  {
    if i == 0 {
      assert ns[0 := n][1..] == ns[1..];
    } else {
      assert ns[i := n][1..] == ns[1..][i - 1 := n];
      TotalUpdate(ns[1..], i - 1, n);
    }
  }

  // A total covers any two of its terms.
  lemma TotalCovers(ns: seq<nat>, i: nat, j: nat)
    requires i < |ns| && j < |ns|
    ensures i == j ==> ns[i] <= Total(ns)
    ensures i != j ==> ns[i] + ns[j] <= Total(ns)
  {
    TotalUpdate(ns, i, 0);
    TotalUpdate(ns[i := 0], j, 0);
  }

  // If the total is more than term i, another term is positive.
  lemma {:induction false} TotalBeside(ns: seq<nat>, i: nat) returns (j: nat)
    requires Total(ns) > if i < |ns| then ns[i] else 0
    ensures j < |ns| && j != i && ns[j] > 0
  {
    if i != 0 && ns[0] > 0 {
      j := 0;
    } else {
      var k := TotalBeside(ns[1..], if i == 0 then |ns| else i - 1);
      j := k + 1;
    }
  }

  lemma {:induction false} TotalZero(ns: seq<nat>)
    requires forall i :: 0 <= i < |ns| ==> ns[i] == 0
    ensures Total(ns) == 0
  {
    if ns != [] {
      TotalZero(ns[1..]);
    }
  }

  lemma {:induction false} TotalBelow(ms: seq<nat>, ns: seq<nat>)
    requires |ms| == |ns| && forall i :: 0 <= i < |ms| ==> ms[i] <= ns[i]
    ensures Total(ms) <= Total(ns)
  {
    if ms != [] {
      TotalBelow(ms[1..], ns[1..]);
    }
  }

  // Two sequences with the same elements still have the same elements after one
  // occurrence of the first element of one is cut out of both.
  lemma CutSame<T>(a: seq<T>, b: seq<T>, i: nat)
    requires multiset(a) == multiset(b) && a != [] && i < |b| && b[i] == a[0]
    ensures multiset(a[1..]) == multiset(b[..i] + b[i + 1..])
  {
    assert a == [a[0]] + a[1..];
    assert b == (b[..i] + [b[i]]) + b[i + 1..];
    assert multiset(b) == multiset(b[..i] + [b[i]]) + multiset(b[i + 1..]);
    assert multiset(b[..i] + b[i + 1..]) == multiset(b[..i]) + multiset(b[i + 1..]);
    assert multiset(a[1..]) == multiset(a) - multiset{a[0]};
  }

  lemma CutFirst<T>(a: seq<T>, b: seq<T>)
    requires multiset(a) == multiset(b) && a != [] && b != [] && a[0] == b[0]
    ensures multiset(a[1..]) == multiset(b[1..])
  {
    assert a == [a[0]] + a[1..] && b == [b[0]] + b[1..];
    assert multiset(a[1..]) == multiset(a) - multiset{a[0]};
    assert multiset(b[1..]) == multiset(b) - multiset{b[0]};
  }

  lemma FirstOccurs<T>(a: seq<T>, b: seq<T>) returns (i: nat)
    requires multiset(a) == multiset(b) && a != []
    ensures i < |b| && b[i] == a[0]
  {
    assert a[0] in multiset(b);
    i :| i < |b| && b[i] == a[0];
  }

  // Cut one occurrence of the first element of a out of b.
  lemma CutOut<T>(a: seq<T>, b: seq<T>) returns (pre: seq<T>, post: seq<T>)
    requires multiset(a) == multiset(b) && a != []
    ensures b == (pre + [a[0]]) + post && multiset(a[1..]) == multiset(pre + post)
  {
    var i := FirstOccurs(a, b);
    CutSame(a, b, i);
    pre, post := b[..i], b[i + 1..];
  }

  lemma NoneSame<T>(a: seq<T>, b: seq<T>)
    requires multiset(a) == multiset(b) && a == []
    ensures b == []
  {
    assert |multiset(b)| == |b|;
  }

  // In a sequence without repetition every element counts once.
  lemma {:induction false} DistinctCount<T>(a: seq<T>, x: T)
    requires Distinct(a)
    ensures multiset(a)[x] == if x in a then 1 else 0
  {
    if a != [] {
      DistinctCount(a[1..], x);
      assert a == [a[0]] + a[1..];
    }
  }

  lemma Member<T>(s: set<T>) returns (x: T)
    requires s != {}
    ensures x in s
  {
    x :| x in s;
  }

  // How many elements satisfy p.
  function Count<T>(p: T -> bool, s: seq<T>): nat {
    if s == [] then 0 else (if p(s[0]) then 1 else 0) + Count(p, s[1..])
  }

  ghost function Hits<T>(p: T -> bool, s: seq<T>): set<nat> {
    set i: nat | i < |s| && p(s[i])
  }

  // It is the number of indices.
  lemma {:induction false} CountIsHits<T>(p: T -> bool, s: seq<T>)
    ensures Count(p, s) == |Hits(p, s)|
  {
    if s != [] {
      var n: nat := |s| - 1;
      CountSnoc(p, s[..n], s[n]);
      CountIsHits(p, s[..n]);
      assert s == s[..n] + [s[n]];
      assert Hits(p, s) == Hits(p, s[..n]) + if p(s[n]) then {n} else {};
    }
  }

  lemma CountOne<T>(p: T -> bool, x: T)
    ensures Count(p, [x]) == if p(x) then 1 else 0
  {
    assert [x][1..] == [];
  }

  lemma CountFirst<T>(p: T -> bool, s: seq<T>)
    requires s != []
    ensures Count(p, s) == Count(p, [s[0]]) + Count(p, s[1..])
  {
    CountOne(p, s[0]);
  }

  lemma {:induction false} CountAppend<T>(p: T -> bool, a: seq<T>, b: seq<T>)
    ensures Count(p, a + b) == Count(p, a) + Count(p, b)
  {
    if a == [] {
      assert a + b == b;
    } else {
      assert (a + b)[1..] == a[1..] + b;
      CountAppend(p, a[1..], b);
    }
  }

  lemma CountSnoc<T>(p: T -> bool, a: seq<T>, x: T)
    ensures Count(p, a + [x]) == Count(p, a) + if p(x) then 1 else 0
  {
    CountAppend(p, a, [x]);
    CountOne(p, x);
  }

  lemma Assoc<T>(a: seq<T>, b: seq<T>, c: seq<T>)
    ensures (a + b) + c == a + (b + c)
  {
  }

  ghost predicate Distinct<T>(a: seq<T>) {
    forall i, j :: 0 <= i < j < |a| ==> a[i] != a[j]
  }

  lemma {:induction false} SameIsDistinct<T>(a: seq<T>, b: seq<T>)
    requires Distinct(a) && multiset(a) == multiset(b)
    ensures Distinct(b)
  {
    forall i, j | 0 <= i < j < |b|
      ensures b[i] != b[j]
    {
      if b[i] == b[j] {
        assert b == (b[..i] + [b[i]] + b[i + 1..j]) + ([b[j]] + b[j + 1..]);
        assert multiset(b)[b[i]] >= 2;
        DistinctCount(a, b[i]);
      }
    }
  }

  function Map<A, B>(f: A -> B, a: seq<A>): (b: seq<B>)
    ensures |b| == |a| && forall i :: 0 <= i < |a| ==> b[i] == f(a[i])
  {
    seq(|a|, i requires 0 <= i < |a| => f(a[i]))
  }

  lemma {:induction false} MapSame<A, B>(f: A -> B, a: seq<A>, b: seq<A>)
    requires multiset(a) == multiset(b)
    ensures multiset(Map(f, a)) == multiset(Map(f, b))
  {
    if a == [] {
      NoneSame(a, b);
    } else {
      var pre, post := CutOut(a, b);
      MapSame(f, a[1..], pre + post);
      assert Map(f, a) == [f(a[0])] + Map(f, a[1..]);
      assert Map(f, b) == (Map(f, pre) + [f(a[0])]) + Map(f, post);
      assert Map(f, pre + post) == Map(f, pre) + Map(f, post);
    }
  }

  lemma DropOfSum<T>(a: seq<T>, b: seq<T>, n: nat)
    requires n <= |a|
    ensures (a + b)[n..] == a[n..] + b && (a + b)[..n] == a[..n]
  {
  }
}
