/**
 String helpers of the original's standard library, on strings whose characters stand
 for bytes of UTF-8 text. Letter case is the ASCII one.
 */
module Text {

  predicate IsSpace(c: char) {
    c == ' ' || c == '\t' || c == '\n' || c == '\r' || c == '\U{0B}' || c == '\U{0C}'
  }

  // The UTF-8 forms of the white space of Unicode beyond ASCII: U+0085, U+00A0, U+1680,
  // U+2000 to U+200A, U+2028, U+2029, U+202F, U+205F and U+3000.
  predicate WideSpace(s: string) {
    || (|s| == 2 && s[0] == '\U{C2}' && (s[1] == '\U{85}' || s[1] == '\U{A0}'))
    || (|s| == 3 && s[0] == '\U{E1}' && s[1] == '\U{9A}' && s[2] == '\U{80}')
    || (|s| == 3 && s[0] == '\U{E2}' && s[1] == '\U{80}' && '\U{80}' <= s[2] <= '\U{8A}')
    || (|s| == 3 && s[0] == '\U{E2}' && s[1] == '\U{80}' && (s[2] == '\U{A8}' || s[2] == '\U{A9}' || s[2] == '\U{AF}'))
    || (|s| == 3 && s[0] == '\U{E2}' && s[1] == '\U{81}' && s[2] == '\U{9F}')
    || (|s| == 3 && s[0] == '\U{E3}' && s[1] == '\U{80}' && s[2] == '\U{80}')
  }

  // How many bytes the white space at the start of s takes, 0 if there is none.
  function SpaceAhead(s: string): (n: nat)
    ensures n <= |s|
  {
    if s != "" && IsSpace(s[0]) then 1
    else if |s| >= 2 && WideSpace(s[..2]) then 2
    else if |s| >= 3 && WideSpace(s[..3]) then 3
    else 0
  }

  function SpaceBehind(s: string): (n: nat)
    ensures n <= |s|
  {
    var k := |s|;
    if k >= 1 && IsSpace(s[k - 1]) then 1
    else if k >= 2 && WideSpace(s[k - 2..]) then 2
    else if k >= 3 && WideSpace(s[k - 3..]) then 3
    else 0
  }

  function TrimLeft(s: string): string {
    if SpaceAhead(s) > 0 then TrimLeft(s[SpaceAhead(s)..]) else s
  }

  function TrimRight(s: string): string {
    if SpaceBehind(s) > 0 then TrimRight(s[..|s| - SpaceBehind(s)]) else s
  }

  function TrimSpace(s: string): string {
    TrimRight(TrimLeft(s))
  }

  // An ASCII character other than white space: no part of any white space.
  predicate Visible(c: char) {
    !IsSpace(c) && c < '\U{80}'
  }

  lemma WideIsWide(w: string)
    requires WideSpace(w)
    ensures 2 <= |w| <= 3 && !Visible(w[0]) && !Visible(w[|w| - 1])
  {
  }

  lemma NoSpaceAhead(s: string)
    requires s != "" && Visible(s[0])
    ensures SpaceAhead(s) == 0
  {
    hide WideSpace;
    if |s| >= 2 && WideSpace(s[..2]) {
      WideIsWide(s[..2]);
    } else if |s| >= 3 && WideSpace(s[..3]) {
      WideIsWide(s[..3]);
    }
  }

  lemma WideBehind(s: string, i: nat)
    requires i < |s| && WideSpace(s[i..])
    ensures !Visible(s[|s| - 1])
  {
    WideIsWide(s[i..]);
    assert s[i..][|s[i..]| - 1] == s[|s| - 1];
  }

  lemma NoSpaceBehind(s: string)
    requires s != "" && Visible(s[|s| - 1])
    ensures SpaceBehind(s) == 0
  {
    forall i | 0 <= i < |s| && WideSpace(s[i..])
      ensures false
    {
      WideBehind(s, i);
    }
    hide WideSpace;
  }

  lemma SpaceBehindHead(s: string)
    requires s != "" && Visible(s[0])
    ensures SpaceBehind(s) < |s|
  {
    hide WideSpace;
    if WideSpace(s) {
      WideIsWide(s);
    }
    assert |s| == 2 ==> s[|s| - 2..] == s;
    assert |s| == 3 ==> s[|s| - 3..] == s;
  }

  // Text that starts and ends with visible characters is left alone.
  lemma TrimVisible(s: string)
    requires s != "" && Visible(s[0]) && Visible(s[|s| - 1])
    ensures TrimSpace(s) == s
  {
    hide SpaceAhead, SpaceBehind, Visible;
    NoSpaceAhead(s);
    NoSpaceBehind(s);
  }

  lemma {:induction false} RightKeepsHead(s: string)
    requires s != "" && Visible(s[0])
    ensures TrimRight(s) != "" && |TrimRight(s)| <= |s|
    decreases |s|
  {
    hide SpaceBehind, Visible;
    SpaceBehindHead(s);
    if SpaceBehind(s) > 0 {
      RightKeepsHead(s[..|s| - SpaceBehind(s)]);
    }
  }

  // Text that starts with a visible character does not vanish.
  lemma TrimKeepsHead(s: string)
    requires s != "" && Visible(s[0])
    ensures TrimSpace(s) != "" && |TrimSpace(s)| <= |s|
  {
    hide SpaceAhead, SpaceBehind, Visible;
    NoSpaceAhead(s);
    RightKeepsHead(s);
  }

  predicate AllSpace(s: string) {
    forall i :: 0 <= i < |s| ==> IsSpace(s[i])
  }

  lemma {:induction false} LeftDropsSpace(w: string, s: string)
    requires AllSpace(w) && (s == "" || Visible(s[0]))
    ensures TrimLeft(w + s) == s
    decreases |w|
  {
    if w == "" {
      assert w + s == s;
      if s != "" {
        NoSpaceAhead(s);
      }
    } else {
      hide WideSpace, Visible;
      assert (w + s)[0] == w[0] && (w + s)[1..] == w[1..] + s;
      LeftDropsSpace(w[1..], s);
    }
  }

  lemma {:induction false} RightDropsSpace(s: string, v: string)
    requires AllSpace(v) && (s == "" || Visible(s[|s| - 1]))
    ensures TrimRight(s + v) == s
    decreases |v|
  {
    if v == "" {
      assert s + v == s;
      if s != "" {
        NoSpaceBehind(s);
      }
    } else {
      hide WideSpace, Visible;
      var n := |v| - 1;
      assert (s + v)[|s + v| - 1] == v[n] && (s + v)[..|s + v| - 1] == s + v[..n];
      RightDropsSpace(s, v[..n]);
    }
  }

  // White space around visible text is dropped, and white space alone vanishes.
  lemma TrimDropsSpace(w: string, s: string, v: string)
    requires AllSpace(w) && AllSpace(v) && (s == "" || (Visible(s[0]) && Visible(s[|s| - 1])))
    ensures TrimSpace(w + s + v) == s
  {
    hide TrimLeft, TrimRight, Visible;
    if s == "" {
      assert w + s + v == (w + v) + "" && "" + "" == "";
      LeftDropsSpace(w + v, "");
      RightDropsSpace("", "");
    } else {
      assert w + s + v == w + (s + v);
      LeftDropsSpace(w, s + v);
      RightDropsSpace(s, v);
    }
  }

  predicate HasPrefix(s: string, p: string) {
    |p| <= |s| && s[..|p|] == p
  }

  predicate HasSuffix(s: string, p: string) {
    |p| <= |s| && s[|s| - |p|..] == p
  }

  // Position of the first occurrence of p in s from position i on, or -1.
  function IndexFrom(s: string, p: string, i: nat): (r: int)
    requires i <= |s|
    ensures r == -1 || (i <= r <= |s| - |p| && HasPrefix(s[r..], p))
    ensures forall j :: i <= j <= |s| && (r == -1 || j < r) ==> !HasPrefix(s[j..], p)
    decreases |s| - i
  {
    if HasPrefix(s[i..], p) then i else if i == |s| then -1 else IndexFrom(s, p, i + 1)
  }

  function Index(s: string, p: string): (r: int)
    ensures r == -1 || 0 <= r <= |s| - |p|
  {
    IndexFrom(s, p, 0)
  }

  function Join(parts: seq<string>, sep: string): string {
    if parts == [] then "" else if |parts| == 1 then parts[0] else parts[0] + sep + Join(parts[1..], sep)
  }

  function LowerChar(c: char): char {
    if 'A' <= c <= 'Z' then ((c as int) + 32) as char else c
  }

  function ToLower(s: string): (r: string)
    ensures |r| == |s| && forall i :: 0 <= i < |s| ==> r[i] == LowerChar(s[i])
  {
    seq(|s|, i requires 0 <= i < |s| => LowerChar(s[i]))
  }

  // Equal up to the case of ASCII letters.
  predicate SameLetter(c: char, d: char) {
    || c == d
    || ('A' <= c <= 'Z' && d as int == c as int + 32)
    || ('A' <= d <= 'Z' && c as int == d as int + 32)
  }

  lemma LowerIgnoresCase(s: string, t: string)
    ensures ToLower(s) == ToLower(t) <==> |s| == |t| && forall i :: 0 <= i < |s| ==> SameLetter(s[i], t[i])
    ensures ToLower(ToLower(s)) == ToLower(s)
  {
    if ToLower(s) == ToLower(t) {
      forall i | 0 <= i < |s|
        ensures SameLetter(s[i], t[i])
      {
        assert ToLower(s)[i] == ToLower(t)[i];
      }
    }
  }

  // Without one trailing p.
  function TrimSuffix(s: string, p: string): string {
    if HasSuffix(s, p) then s[..|s| - |p|] else s
  }

  // Host names are compared in lower case and without a final dot.
  function Normalize(host: string): string {
    ToLower(TrimSuffix(host, "."))
  }

  // ----- byte-wise order -------------------------------------------------------------------

  predicate Before(a: string, b: string) {
    b != "" && (a == "" || a[0] < b[0] || (a[0] == b[0] && Before(a[1..], b[1..])))
  }

  // a is smaller than b at the first place where they differ.
  predicate SmallerAt(a: string, b: string, k: nat) {
    k < |a| && k < |b| && a[k] < b[k] && a[..k] == b[..k]
  }

  predicate ProperPrefix(a: string, b: string) {
    |a| < |b| && a == b[..|a|]
  }

  lemma TailsPrefix(a: string, b: string)
    requires a != "" && b != "" && a[0] == b[0]
    ensures ProperPrefix(a, b) <==> ProperPrefix(a[1..], b[1..])
  {
    var c, d := a[1..], b[1..];
    assert a == [a[0]] + c && b == [b[0]] + d;
    if ProperPrefix(a, b) {
      assert c == b[..|a|][1..] == d[..|c|];
    }
  }

  lemma TailsSmaller(a: string, b: string, k: nat)
    requires a != "" && b != "" && a[0] == b[0]
    ensures SmallerAt(a, b, k + 1) <==> SmallerAt(a[1..], b[1..], k)
  {
    var c, d := a[1..], b[1..];
    if k < |c| && k < |d| {
      assert a[..k + 1] == [a[0]] + c[..k] && b[..k + 1] == [b[0]] + d[..k];
      assert a[..k + 1][1..] == c[..k] && b[..k + 1][1..] == d[..k];
    }
  }

  lemma HeadsAgree(a: string, b: string, k: nat)
    requires SmallerAt(a, b, k) && k > 0
    ensures a[0] == b[0]
  {
    assert a[..k][0] == a[0] && b[..k][0] == b[0];
  }

  // The order of bytes: a is a proper prefix, or smaller where they first differ.
  lemma {:induction false} BeforeMeans(a: string, b: string)
    ensures Before(a, b) <==> ProperPrefix(a, b) || exists k: nat :: SmallerAt(a, b, k)
  {
    if a != "" && b != "" {
      if a[0] == b[0] {
        TailsPrefix(a, b);
        BeforeMeans(a[1..], b[1..]);
        if k: nat :| SmallerAt(a[1..], b[1..], k) {
          TailsSmaller(a, b, k);
        }
        if k: nat :| SmallerAt(a, b, k) {
          TailsSmaller(a, b, k - 1);
        }
      } else {
        if a[0] < b[0] {
          assert SmallerAt(a, b, 0);
        }
        forall k: nat | SmallerAt(a, b, k)
          ensures k == 0
        {
          if k > 0 {
            HeadsAgree(a, b, k);
          }
        }
      }
    }
  }

  lemma {:induction false} BeforeTotal(a: string, b: string)
    ensures Before(a, b) || a == b || Before(b, a)
  {
    if a != "" && b != "" && a[0] == b[0] {
      BeforeTotal(a[1..], b[1..]);
      assert a == [a[0]] + a[1..] && b == [b[0]] + b[1..];
    }
  }

  lemma {:induction false} BeforeTransitive(a: string, b: string, c: string)
    requires Before(a, b) && Before(b, c)
    ensures Before(a, c)
  {
    if a != "" && a[0] == b[0] == c[0] {
      BeforeTransitive(a[1..], b[1..], c[1..]);
    }
  }

  lemma {:induction false} BeforeIrreflexive(a: string)
    ensures !Before(a, a)
  {
    if a != "" {
      BeforeIrreflexive(a[1..]);
    }
  }
}
