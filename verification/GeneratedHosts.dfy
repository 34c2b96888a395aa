/**
 Host patterns with one number in them, and the A records of a whole range of such hosts
 (internal/dnsserver/generated.go). Go's int is 64 bits wide.
 */
module GeneratedHosts {
  import opened Seqs
  import opened Text
  import opened DnsTypes

  const MAX_INT := 0x7fff_ffff_ffff_ffff

  datatype Pattern = Pattern(prefix: string, suffix: string, width: nat)

  datatype Range = Range(pattern: Pattern, start: int, end: int, entry: ZoneEntry)

  datatype LookupResult = Found(entry: ZoneEntry) | Miss | Panics

  // ----- decimal numbers --------------------------------------------------------------------

  predicate IsDigit(c: char) {
    '0' <= c <= '9'
  }

  predicate AllDigits(s: string) {
    forall i :: 0 <= i < |s| ==> IsDigit(s[i])
  }

  function DigitsValue(s: string): nat
    requires AllDigits(s)
  {
    if s == "" then 0 else 10 * DigitsValue(s[..|s| - 1]) + (s[|s| - 1] as int - '0' as int)
  }

  function DigitChar(d: nat): (c: char)
    requires d < 10
    ensures IsDigit(c) && c as int - '0' as int == d
  {
    ('0' as int + d) as char
  }

  function Decimal(n: nat): (s: string)
    ensures s != "" && AllDigits(s)
  {
    if n < 10 then [DigitChar(n)] else Decimal(n / 10) + [DigitChar(n % 10)]
  }

  lemma {:induction false} DecimalValue(n: nat)
    ensures DigitsValue(Decimal(n)) == n
    ensures |Decimal(n)| > 1 ==> Decimal(n)[0] != '0'
    ensures n > 0 ==> Decimal(n)[0] != '0'
  {
    var s := Decimal(n);
    if n >= 10 {
      DecimalValue(n / 10);
      assert s[..|s| - 1] == Decimal(n / 10);
    } else {
      assert s[..0] == "";
    }
  }

  // A number without needless zeros is the canonical form of its value.
  predicate Canonical(s: string) {
    s != "" && AllDigits(s) && (|s| > 1 ==> s[0] != '0')
  }

  lemma DecimalStep(v: nat, d: nat)
    requires v >= 1 && d < 10
    ensures Decimal(10 * v + d) == Decimal(v) + [DigitChar(d)]
  {
    var n := 10 * v + d;
    assert n / 10 == v && n % 10 == d;
  }

  lemma DigitCharOf(c: char)
    requires IsDigit(c)
    ensures DigitChar(c as int - '0' as int) == c
  {
  }

  lemma DigitsStep(s: string)
    requires s != "" && AllDigits(s)
    ensures AllDigits(s[..|s| - 1])
    ensures DigitsValue(s) == 10 * DigitsValue(s[..|s| - 1]) + (s[|s| - 1] as int - '0' as int)
  {
  }

  lemma OneDigit(s: string)
    requires |s| == 1 && AllDigits(s)
    ensures DigitsValue(s) == s[0] as int - '0' as int && Decimal(DigitsValue(s)) == s
  {
    assert s[..0] == "";
    DigitCharOf(s[0]);
  }

  // The decimal of the value of a canonical number is the number.
  lemma {:induction false} CanonicalIsDecimal(s: string)
    requires Canonical(s)
    ensures Decimal(DigitsValue(s)) == s
    ensures |s| > 1 ==> DigitsValue(s) >= 10
    decreases |s|
  {
    var n := |s| - 1;
    if n == 0 {
      OneDigit(s);
    } else {
      hide Decimal, DigitsValue;
      var front := s[..n];
      DigitsStep(s);
      CanonicalIsDecimal(front);
      if n == 1 {
        OneDigit(front);
      }
      DecimalStep(DigitsValue(front), s[n] as int - '0' as int);
      DigitCharOf(s[n]);
      assert s == front + [s[n]];
    }
  }

  function Zeros(k: nat): (s: string)
    ensures |s| == k && AllDigits(s) && forall i :: 0 <= i < k ==> s[i] == '0'
  {
    seq(k, i => '0')
  }

  // %0Nd: padded with zeros to the width, longer numbers as they are.
  function Padded(n: nat, width: nat): (s: string)
    ensures s != "" && AllDigits(s) && |s| >= width
  {
    var d := Decimal(n);
    if |d| >= width then d else Zeros(width - |d|) + d
  }

  lemma {:induction false} LeadingZeros(k: nat, d: string)
    requires AllDigits(d)
    ensures DigitsValue(Zeros(k) + d) == DigitsValue(d)
    decreases k + |d|
  {
    var s := Zeros(k) + d;
    if d != "" {
      assert s[..|s| - 1] == Zeros(k) + d[..|d| - 1];
      LeadingZeros(k, d[..|d| - 1]);
    } else if k > 0 {
      assert s[..|s| - 1] == Zeros(k - 1) + d;
      LeadingZeros(k - 1, d);
    }
  }

  lemma PaddedValue(n: nat, width: nat)
    ensures DigitsValue(Padded(n, width)) == n
  {
    DecimalValue(n);
    if |Decimal(n)| < width {
      LeadingZeros(width - |Decimal(n)|, Decimal(n));
    }
  }

  // strconv.Atoi and ParseInt on digits: the value, unless it does not fit.
  function ParseDigits(s: string): Option<nat>
    requires AllDigits(s)
  {
    if s == "" || DigitsValue(s) > MAX_INT then None else Some(DigitsValue(s))
  }

  // ----- patterns -------------------------------------------------------------------------------

  // The end of the digits of s from position i on.
  function DigitsEnd(s: string, i: nat): (e: nat)
    requires i <= |s|
    ensures i <= e <= |s| && AllDigits(s[i..e]) && (e < |s| ==> !IsDigit(s[e]))
    decreases |s| - i
  {
    if i < |s| && IsDigit(s[i]) then
      var e := DigitsEnd(s, i + 1);
      assert s[i..e] == [s[i]] + s[i + 1..e];
      e
    else i
  }

  // The pattern after its percent sign: d, or 0, a width and d.
  function AfterPercent(p: string, percent: nat): Option<Pattern>
    requires percent < |p|
  {
    var pos := percent + 1;
    if pos >= |p| then None
    else if p[pos] == '0' then
      var e := DigitsEnd(p, pos + 1);
      if e == pos + 1 then None
      else
        var w := ParseDigits(p[pos + 1..e]);
        if w.None? || w.value <= 0 || e >= |p| || p[e] != 'd' then None
        else Some(Pattern(p[..percent], p[e + 1..], w.value))
    else if p[pos] != 'd' then None
    else Some(Pattern(p[..percent], p[pos + 1..], 0))
  }

  function ParsePattern(pattern: string): Option<Pattern> {
    var p := Normalize(pattern);
    var percent := Index(p, "%");
    if percent < 0 || '%' in p[percent + 1..] then None else AfterPercent(p, percent)
  }

  // %d, or %0Nd with a positive width.
  ghost predicate Placeholder(mark: string, width: nat) {
    if width == 0 then mark == "%d"
    else exists digits :: mark == "%0" + digits + "d" && Width(digits, width)
  }

  predicate Width(digits: string, width: nat) {
    digits != "" && AllDigits(digits) && DigitsValue(digits) == width <= MAX_INT
  }

  lemma {:induction false} DigitsEndAt(s: string, i: nat, e: nat)
    requires i <= e <= |s| && AllDigits(s[i..e]) && (e < |s| ==> !IsDigit(s[e]))
    ensures DigitsEnd(s, i) == e
    decreases e - i
  {
    if i < e {
      assert s[i..e][0] == s[i];
      assert s[i + 1..e] == s[i..e][1..];
      DigitsEndAt(s, i + 1, e);
    }
  }

  // The text from the percent sign on is a placeholder and the suffix.
  lemma AfterPercentMarked(n: string, percent: nat) returns (mark: string)
    requires percent < |n| && n[percent] == '%' && AfterPercent(n, percent).Some?
    ensures var p := AfterPercent(n, percent).value;
            Placeholder(mark, p.width) && n[percent..] == mark + p.suffix && |p.suffix| < |n| - percent
  {
    hide DigitsEnd, DigitsValue;
    if n[percent + 1] == '0' {
      var e := DigitsEnd(n, percent + 2);
      var digits := n[percent + 2..e];
      mark := "%0" + digits + "d";
      assert Width(digits, AfterPercent(n, percent).value.width);
      assert n[percent..] == mark + n[e + 1..];
    } else {
      mark := "%d";
      assert n[percent..] == mark + n[percent + 2..];
    }
  }

  // The parts of a parsed pattern put together again.
  lemma ParsedIsMarked(pattern: string) returns (mark: string)
    requires ParsePattern(pattern).Some?
    ensures var p := ParsePattern(pattern).value;
            '%' !in p.prefix && '%' !in p.suffix && Placeholder(mark, p.width)
            && Normalize(pattern) == p.prefix + mark + p.suffix
  {
    hide Normalize, Index, Placeholder;
    var n := Normalize(pattern);
    var percent := Index(n, "%");
    IndexOfPercent(n);
    mark := AfterPercentMarked(n, percent);
    var p := ParsePattern(pattern).value;
    assert p.prefix == n[..percent] by { AfterPercentPrefix(n, percent); }
    assert n == n[..percent] + n[percent..] == p.prefix + mark + p.suffix;
    forall i | 0 <= i < |p.suffix|
      ensures p.suffix[i] != '%'
    {
      assert p.suffix[i] == n[percent..][|mark| + i] == n[percent + 1..][|mark| + i - 1];
    }
  }

  lemma AfterPercentPrefix(n: string, percent: nat)
    requires percent < |n| && AfterPercent(n, percent).Some?
    ensures AfterPercent(n, percent).value.prefix == n[..percent]
  {
  }

  lemma IndexOfPercent(n: string)
    ensures var i := Index(n, "%"); if i < 0 then '%' !in n else n[i] == '%' && forall j :: 0 <= j < i ==> n[j] != '%'
  {
    forall j | 0 <= j < |n| && n[j] == '%'
      ensures HasPrefix(n[j..], "%")
    {
      assert n[j..][..1] == "%";
    }
    var i := Index(n, "%");
    if i >= 0 {
      assert n[i..][..1] == "%";
      assert "%"[0] == '%';
    }
  }

  lemma PercentAt(prefix: string, rest: string)
    requires '%' !in prefix
    ensures Index(prefix + "%" + rest, "%") == |prefix|
  {
    var n := prefix + "%" + rest;
    IndexOfPercent(n);
    var i := Index(n, "%");
    assert n[|prefix|] == '%';
    assert forall j :: 0 <= j < |prefix| ==> n[j] == prefix[j];
  }

  lemma PlainMark(n: string, p: Pattern)
    requires p.width == 0 && n == p.prefix + "%d" + p.suffix
    ensures AfterPercent(n, |p.prefix|) == Some(p)
  {
    var k := |p.prefix|;
    assert n[k + 1] == "%d"[1] && n[k + 2..] == p.suffix && n[..k] == p.prefix;
  }

  lemma PaddedMark(n: string, p: Pattern, digits: string)
    requires p.width > 0 && Width(digits, p.width) && n == p.prefix + ("%0" + (digits + ("d" + p.suffix)))
    ensures AfterPercent(n, |p.prefix|) == Some(p)
  {
    var k, e := |p.prefix|, |p.prefix| + 2 + |digits|;
    assert n[k + 1] == "%0"[1] && n[k + 2..e] == digits && n[e] == 'd' && n[e + 1..] == p.suffix && n[..k] == p.prefix;
    DigitsEndAt(n, k + 2, e);
  }

  // Text of that form parses to its parts.
  lemma MarkedIsParsed(pattern: string, p: Pattern, mark: string)
    requires '%' !in p.prefix && '%' !in p.suffix && Placeholder(mark, p.width)
    requires Normalize(pattern) == p.prefix + mark + p.suffix
    ensures ParsePattern(pattern) == Some(p)
  {
    hide Normalize, Index, AfterPercent, Placeholder;
    MarkStarts(mark, p.width);
    var n, rest := Normalize(pattern), mark[1..] + p.suffix;
    MarkReads(n, p, mark);
    NoOtherPercent(mark, p.suffix);
    assert n == p.prefix + "%" + rest;
    PercentAt(p.prefix, rest);
    assert n[|p.prefix| + 1..] == rest;
  }

  lemma NoOtherPercent(mark: string, suffix: string)
    requires mark != "" && '%' !in suffix && forall i :: 0 < i < |mark| ==> mark[i] != '%'
    ensures '%' !in mark[1..] + suffix
  {
    var rest := mark[1..] + suffix;
    forall i | 0 <= i < |rest|
      ensures rest[i] != '%'
    {
      if i < |mark| - 1 {
        assert rest[i] == mark[i + 1];
      } else {
        assert rest[i] == suffix[i - (|mark| - 1)];
      }
    }
  }

  lemma MarkStarts(mark: string, width: nat)
    requires Placeholder(mark, width)
    ensures mark != "" && mark == "%" + mark[1..] && forall i :: 0 < i < |mark| ==> mark[i] != '%'
  {
    if width > 0 {
      var digits :| mark == "%0" + digits + "d" && Width(digits, width);
      forall i | 0 < i < |mark|
        ensures mark[i] != '%'
      {
        if 2 <= i < |mark| - 1 {
          assert mark[i] == digits[i - 2];
        }
      }
    }
  }

  lemma MarkReads(n: string, p: Pattern, mark: string)
    requires Placeholder(mark, p.width) && n == p.prefix + mark + p.suffix
    ensures AfterPercent(n, |p.prefix|) == Some(p)
  {
    hide AfterPercent;
    if p.width == 0 {
      PlainMark(n, p);
    } else {
      var digits :| mark == "%0" + digits + "d" && Width(digits, p.width);
      assert n == p.prefix + ("%0" + (digits + ("d" + p.suffix)));
      PaddedMark(n, p, digits);
    }
  }

  // A pattern parses to prefix, suffix and width exactly when it is the prefix, a
  // placeholder of that width and the suffix, with no other percent sign.
  lemma ParsesExactly(pattern: string, p: Pattern)
    ensures ParsePattern(pattern) == Some(p)
       <==> '%' !in p.prefix && '%' !in p.suffix
            && exists mark :: Placeholder(mark, p.width) && Normalize(pattern) == p.prefix + mark + p.suffix
  {
    hide Normalize, ParsePattern, Placeholder;
    if ParsePattern(pattern) == Some(p) {
      var mark := ParsedIsMarked(pattern);
    }
    if '%' !in p.prefix && '%' !in p.suffix {
      forall mark | Placeholder(mark, p.width) && Normalize(pattern) == p.prefix + mark + p.suffix
        ensures ParsePattern(pattern) == Some(p)
      {
        MarkedIsParsed(pattern, p, mark);
      }
    }
  }

  method ParseGeneratedHostPattern(rawPattern: string) returns (r: Option<Pattern>)
    ensures r == ParsePattern(rawPattern)
  {
    var pattern := Normalize(rawPattern);
    var percent := Index(pattern, "%");
    if percent < 0 {
      return None;
    }
    if '%' in pattern[percent + 1..] {
      return None;
    }
    r := ParsePlaceholder(pattern, percent);
  }

  method ParsePlaceholder(pattern: string, percent: nat) returns (r: Option<Pattern>)
    requires percent < |pattern|
    ensures r == AfterPercent(pattern, percent)
  {
    var pos := percent + 1;
    if pos >= |pattern| {
      return None;
    }
    var width := 0;
    if pattern[pos] == '0' {
      pos := pos + 1;
      var startDigits := pos;
      while pos < |pattern| && IsDigit(pattern[pos])
        invariant startDigits <= pos <= |pattern|
        invariant DigitsEnd(pattern, pos) == DigitsEnd(pattern, startDigits)
      {
        pos := pos + 1;
      }
      if startDigits == pos {
        return None;
      }
      var parsed := ParseDigits(pattern[startDigits..pos]);
      if parsed.None? || parsed.value <= 0 {
        return None;
      }
      width := parsed.value;
    }
    if pos >= |pattern| || pattern[pos] != 'd' {
      return None;
    }
    r := Some(Pattern(pattern[..percent], pattern[pos + 1..], width));
  }

  // A 64-bit sum wraps around.
  function Wrap(n: int): int {
    if n > MAX_INT then n - 0x1_0000_0000_0000_0000 else n
  }

  function NewRange(id: string, hostPattern: string, start: int, count: int, ip: Option<IPv4>,
          ttl: uint32): Option<Range>
    requires start <= MAX_INT && count <= MAX_INT
  {
    if id == "" || hostPattern == "" || start < 0 || count <= 0 || ip.None? then None
    else
      var p := ParsePattern(hostPattern);
      if p.None? then None else Some(Range(p.value, start, Wrap(start + count - 1), ZoneEntry(ip.value, ttl)))
  }

  // A range is made of any positive count of numbers from 0 on, given an address and a pattern.
  lemma RangeMadeIff(id: string, hostPattern: string, start: int, count: int, ip: Option<IPv4>, ttl: uint32)
    requires start <= MAX_INT && count <= MAX_INT
    ensures NewRange(id, hostPattern, start, count, ip, ttl).Some?
       <==> id != "" && start >= 0 && count >= 1 && ip.Some? && exists p :: ParsePattern(hostPattern) == Some(p)
  {
    if hostPattern == "" {
      assert Normalize("") == "";
    }
    if ParsePattern(hostPattern).Some? {
      assert ParsePattern(hostPattern) == Some(ParsePattern(hostPattern).value);
    }
  }

  // ----- lookup -----------------------------------------------------------------------------------

  // The digits between prefix and suffix decide. Slicing them out panics when prefix and
  // suffix overlap in the host.
  function Lookup(r: Range, rawHost: string): LookupResult {
    var host, p := Normalize(rawHost), r.pattern;
    if !HasPrefix(host, p.prefix) || !HasSuffix(host, p.suffix) then Miss
    else if |p.prefix| > |host| - |p.suffix| then Panics
    else Decide(r, host[|p.prefix|..|host| - |p.suffix|])
  }

  function Decide(r: Range, middle: string): LookupResult {
    if middle == "" then Miss
    else if r.pattern.width > 0 && |middle| < r.pattern.width then Miss
    else if r.pattern.width == 0 && |middle| > 1 && middle[0] == '0' then Miss
    else if !AllDigits(middle) then Miss
    else if ParseDigits(middle).None? then Miss
    else if DigitsValue(middle) < r.start || DigitsValue(middle) > r.end then Miss
    else Found(r.entry)
  }

  function FormatHost(p: Pattern, n: nat): string {
    p.prefix + Padded(n, p.width) + p.suffix
  }

  // A pattern that parsed is in lower case.
  lemma ParsedIsLower(pattern: string)
    requires ParsePattern(pattern).Some?
    ensures var p := ParsePattern(pattern).value; ToLower(p.prefix) == p.prefix && ToLower(p.suffix) == p.suffix
  {
    var n := Normalize(pattern);
    var p := ParsePattern(pattern).value;
    assert forall i :: 0 <= i < |n| ==> LowerChar(n[i]) == n[i];
    assert forall i :: 0 <= i < |p.prefix| ==> p.prefix[i] == n[i];
    assert exists k :: 0 <= k <= |n| && p.suffix == n[k..];
  }

  lemma {:induction false} LowerSum(a: string, b: string)
    ensures ToLower(a + b) == ToLower(a) + ToLower(b)
  {
  }

  lemma LowerDigits(s: string)
    requires AllDigits(s)
    ensures ToLower(s) == s
  {
  }

  ghost predicate LowerPattern(p: Pattern) {
    ToLower(p.prefix) == p.prefix && ToLower(p.suffix) == p.suffix
  }

  lemma FormattedIsLower(p: Pattern, middle: string)
    requires LowerPattern(p) && AllDigits(middle)
    ensures ToLower(p.prefix + middle + p.suffix) == p.prefix + middle + p.suffix
  {
    LowerSum(p.prefix + middle, p.suffix);
    LowerSum(p.prefix, middle);
    LowerDigits(middle);
  }

  lemma Sandwich(a: string, m: string, b: string)
    ensures var h := a + m + b;
            HasPrefix(h, a) && HasSuffix(h, b) && |a| <= |h| - |b| && h[|a|..|h| - |b|] == m
  {
    var h := a + m + b;
    assert h[..|a|] == a;
    assert h[|h| - |b|..] == b;
  }

  // What lookup finds in a normalized host that has the form of the pattern.
  lemma LookupMiddle(r: Range, host: string, middle: string)
    requires Normalize(host) == r.pattern.prefix + middle + r.pattern.suffix && middle != "" && AllDigits(middle)
    requires |middle| >= r.pattern.width && (r.pattern.width == 0 && |middle| > 1 ==> middle[0] != '0')
    requires r.end <= MAX_INT
    ensures Lookup(r, host) == if r.start <= DigitsValue(middle) <= r.end then Found(r.entry) else Miss
  {
    LookupIsDecide(r, host, middle);
  }

  lemma LookupIsDecide(r: Range, host: string, middle: string)
    requires Normalize(host) == r.pattern.prefix + middle + r.pattern.suffix
    ensures Lookup(r, host) == Decide(r, middle)
  {
    hide Normalize, Decide, HasPrefix, HasSuffix;
    Sandwich(r.pattern.prefix, middle, r.pattern.suffix);
  }

  // A host that is found is the prefix, a middle that decides, and the suffix.
  lemma FoundSplits(r: Range, host: string) returns (middle: string)
    requires Lookup(r, host).Found?
    ensures Decide(r, middle).Found? && Normalize(host) == r.pattern.prefix + middle + r.pattern.suffix
  {
    hide Normalize, Decide;
    var h, p := Normalize(host), r.pattern;
    middle := h[|p.prefix|..|h| - |p.suffix|];
  }

  // A number from the start of a range on, formatted by the pattern and written with its
  // final dot, is found exactly up to the end of the range.
  lemma RangeFinds(r: Range, n: nat)
    requires LowerPattern(r.pattern) && r.start <= n && r.end <= MAX_INT
    ensures Lookup(r, FormatHost(r.pattern, n) + ".") == if n <= r.end then Found(r.entry) else Miss
  {
    var p, middle := r.pattern, Padded(n, r.pattern.width);
    var host := FormatHost(p, n) + ".";
    FormattedIsLower(p, middle);
    assert TrimSuffix(host, ".") == FormatHost(p, n) by {
      assert host[|host| - 1..] == ".";
    }
    PaddedValue(n, p.width);
    DecimalValue(n);
    LookupMiddle(r, host, middle);
  }

  // Without the dot it is found under the same condition, unless the suffix ends in a dot
  // itself, which normalizing cuts off.
  lemma RangeFindsBare(r: Range, n: nat)
    requires LowerPattern(r.pattern) && r.start <= n && r.end <= MAX_INT
    ensures Lookup(r, FormatHost(r.pattern, n)) == Found(r.entry) <==> n <= r.end && !HasSuffix(r.pattern.suffix, ".")
    ensures !HasSuffix(r.pattern.suffix, ".") ==> Normalize(FormatHost(r.pattern, n)) == FormatHost(r.pattern, n)
  {
    var p, middle := r.pattern, Padded(n, r.pattern.width);
    var host := FormatHost(p, n);
    FormattedIsLower(p, middle);
    if HasSuffix(p.suffix, ".") {
      CutDotMisses(p, middle);
    } else {
      NoDotAtEnd(p, middle);
      PaddedValue(n, p.width);
      DecimalValue(n);
      LookupMiddle(r, host, middle);
    }
  }

  // So every host of a range that was made from a pattern is found exactly when the end of
  // the range did not wrap around.
  lemma HostsRoundTrip(id: string, hostPattern: string, start: int, count: int, ip: Option<IPv4>, ttl: uint32, n: nat)
    requires start <= MAX_INT && count <= MAX_INT && NewRange(id, hostPattern, start, count, ip, ttl).Some?
    requires start <= n <= start + count - 1
    ensures var r := NewRange(id, hostPattern, start, count, ip, ttl).value;
            && (Lookup(r, FormatHost(r.pattern, n) + ".") == Found(ZoneEntry(ip.value, ttl))
                <==> start + count - 1 <= MAX_INT)
            && (Lookup(r, FormatHost(r.pattern, n)) == Found(ZoneEntry(ip.value, ttl))
                <==> start + count - 1 <= MAX_INT && !HasSuffix(r.pattern.suffix, "."))
  {
    hide Lookup, FormatHost, ParsePattern, HasSuffix;
    var r := NewRange(id, hostPattern, start, count, ip, ttl).value;
    ParsedIsLower(hostPattern);
    RangeFinds(r, n);
    RangeFindsBare(r, n);
  }

  lemma NoDotAtEnd(p: Pattern, middle: string)
    requires middle != "" && AllDigits(middle) && !HasSuffix(p.suffix, ".")
    ensures var host := p.prefix + middle + p.suffix; TrimSuffix(host, ".") == host
  {
    var host := p.prefix + middle + p.suffix;
    var last := host[|host| - 1];
    assert host[|host| - 1..] == [last];
    if p.suffix == "" {
      assert last == middle[|middle| - 1];
    } else {
      assert last == p.suffix[|p.suffix| - 1];
      assert p.suffix[|p.suffix| - 1..] == [last];
    }
    assert "."[0] == '.';
  }

  // With its last dot cut off, the host no longer ends in the suffix: that would make all
  // characters of the suffix equal to the digit before it.
  lemma CutDotMisses(p: Pattern, middle: string)
    requires LowerPattern(p) && middle != "" && AllDigits(middle) && HasSuffix(p.suffix, ".")
    ensures !HasSuffix(Normalize(p.prefix + middle + p.suffix), p.suffix)
  {
    var front, s := p.prefix + middle, p.suffix;
    FormattedIsLower(p, middle);
    CutDot(front, s);
    ShiftedSuffix(front, s);
  }

  lemma CutDot(front: string, s: string)
    requires HasSuffix(s, ".") && ToLower(front + s) == front + s
    ensures Normalize(front + s) == front + s[..|s| - 1]
  {
    var host := front + s;
    assert host[|host| - 1..] == s[|s| - 1..] == ".";
    assert host == (front + s[..|s| - 1]) + ".";
    assert TrimSuffix(host, ".") == front + s[..|s| - 1];
    LowerSum(front + s[..|s| - 1], ".");
  }

  lemma ShiftedSuffix(front: string, s: string)
    requires HasSuffix(s, ".") && front != "" && IsDigit(front[|front| - 1])
    ensures !HasSuffix(front + s[..|s| - 1], s)
  {
    var cut, k := front + s[..|s| - 1], |front| - 1;
    assert s[|s| - 1] == s[|s| - 1..][0] == '.';
    if HasSuffix(cut, s) {
      assert |cut| - |s| == k && cut[k..] == s;
      forall i | 0 <= i < |s|
        ensures s[i] == if i == 0 then front[k] else s[i - 1]
      {
        assert cut[k..][i] == cut[k + i];
      }
      AllSame(s, front[k], |s| - 1);
    }
  }

  lemma {:induction false} AllSame(s: string, c: char, i: nat)
    requires i < |s| && s[0] == c && forall j :: 0 < j < |s| ==> s[j] == s[j - 1]
    ensures s[i] == c
  {
    if i > 0 {
      AllSame(s, c, i - 1);
    }
  }

  // A range without a width accepts a host exactly when it is the canonical spelling of a
  // number in range: no other spelling, no other host.
  lemma PlainRangeExact(r: Range, host: string)
    requires r.pattern.width == 0 && 0 <= r.start && r.end <= MAX_INT
    ensures Lookup(r, host).Found?
       <==> exists n: nat :: r.start <= n <= r.end && Normalize(host) == FormatHost(r.pattern, n)
  {
    hide Normalize, Lookup;
    var h, p := Normalize(host), r.pattern;
    if Lookup(r, host).Found? {
      var middle := FoundSplits(r, host);
      CanonicalIsDecimal(middle);
      assert h == FormatHost(p, DigitsValue(middle));
    }
    if n: nat :| r.start <= n <= r.end && h == FormatHost(p, n) {
      DecimalValue(n);
      LookupMiddle(r, host, Decimal(n));
    }
  }

  // A padded range accepts exactly the numbers in range with at least as many digits as the
  // width: the padded spelling and spellings with more zeros in front.
  lemma PaddedRangeExact(r: Range, host: string)
    requires r.pattern.width > 0 && 0 <= r.start && r.end <= MAX_INT
    ensures Lookup(r, host).Found?
       <==> exists middle :: AllDigits(middle) && |middle| >= r.pattern.width
                             && r.start <= DigitsValue(middle) <= r.end
                             && Normalize(host) == r.pattern.prefix + middle + r.pattern.suffix
  {
    hide Normalize, Lookup;
    var h, p := Normalize(host), r.pattern;
    if Lookup(r, host).Found? {
      var middle := FoundSplits(r, host);
      assert AllDigits(middle) && |middle| >= p.width && r.start <= DigitsValue(middle) <= r.end;
    }
    if middle :| AllDigits(middle) && |middle| >= p.width && r.start <= DigitsValue(middle) <= r.end
                 && h == p.prefix + middle + p.suffix {
      LookupMiddle(r, host, middle);
    }
  }

  // ----- when lookup panics -----------------------------------------------------------------------

  // Some end of the prefix is also a start of the suffix.
  ghost predicate Overlaps(p: Pattern) {
    exists k :: 0 < k <= |p.prefix| && k <= |p.suffix| && p.prefix[|p.prefix| - k..] == p.suffix[..k]
  }

  // The prefix and what is left of the suffix when an end of the one is a start of the other.
  ghost predicate OverlapHost(p: Pattern, host: string) {
    exists k :: 0 < k <= |p.prefix| && k <= |p.suffix| && p.prefix[|p.prefix| - k..] == p.suffix[..k]
                && host == p.prefix + p.suffix[k..]
  }

  lemma DecideReturns(r: Range, middle: string)
    ensures !Decide(r, middle).Panics?
  {
  }

  // A prefix and a suffix of one host that together are longer than it.
  lemma EndsOverlap(p: Pattern, h: string)
    requires HasPrefix(h, p.prefix) && HasSuffix(h, p.suffix) && |p.prefix| + |p.suffix| > |h|
    ensures OverlapHost(p, h)
  {
    var k := |p.prefix| + |p.suffix| - |h|;
    assert h[..|p.prefix|][|p.prefix| - k..] == h[|h| - |p.suffix|..][..k];
    assert h == h[..|p.prefix|] + h[|p.prefix|..];
    assert h[|p.prefix|..] == p.suffix[k..];
  }

  lemma OverlapEnds(p: Pattern, k: nat)
    requires 0 < k <= |p.prefix| && k <= |p.suffix| && p.prefix[|p.prefix| - k..] == p.suffix[..k]
    ensures var h := p.prefix + p.suffix[k..]; HasPrefix(h, p.prefix) && HasSuffix(h, p.suffix)
  {
    var h := p.prefix + p.suffix[k..];
    assert h[..|p.prefix|] == p.prefix;
    assert h[|h| - |p.suffix|..] == p.prefix[|p.prefix| - k..] + p.suffix[k..];
  }

  // Lookup panics on exactly the hosts in which prefix and suffix overlap.
  lemma PanicsExactly(r: Range, host: string)
    ensures Lookup(r, host).Panics? <==> OverlapHost(r.pattern, Normalize(host))
  {
    var p, h := r.pattern, Normalize(host);
    hide Normalize, Decide, HasPrefix, HasSuffix;
    if HasPrefix(h, p.prefix) && HasSuffix(h, p.suffix) {
      if |p.prefix| > |h| - |p.suffix| {
        EndsOverlap(p, h);
      } else {
        DecideReturns(r, h[|p.prefix|..|h| - |p.suffix|]);
      }
    }
    if k :| 0 < k <= |p.prefix| && k <= |p.suffix| && p.prefix[|p.prefix| - k..] == p.suffix[..k]
            && h == p.prefix + p.suffix[k..] {
      OverlapEnds(p, k);
    }
  }

  lemma LowerOverlap(p: Pattern, k: nat)
    requires LowerPattern(p) && k <= |p.suffix|
    ensures ToLower(p.prefix + p.suffix[k..]) == p.prefix + p.suffix[k..]
  {
    LowerSum(p.suffix[..k], p.suffix[k..]);
    assert p.suffix == p.suffix[..k] + p.suffix[k..];
    assert ToLower(p.suffix)[k..] == ToLower(p.suffix[k..]);
    LowerSum(p.prefix, p.suffix[k..]);
  }

  lemma DotIsDropped(h: string)
    requires ToLower(h) == h
    ensures Normalize(h + ".") == h
  {
    var host := h + ".";
    assert host[|host| - 1..] == "." && TrimSuffix(host, ".") == h;
  }

  lemma OverlapPanics(r: Range, k: nat) returns (host: string)
    requires LowerPattern(r.pattern)
    requires var p := r.pattern;
             0 < k <= |p.prefix| && k <= |p.suffix| && p.prefix[|p.prefix| - k..] == p.suffix[..k]
    ensures Lookup(r, host).Panics?
  {
    hide LowerPattern, Normalize, Lookup;
    var p := r.pattern;
    var h := p.prefix + p.suffix[k..];
    host := h + ".";
    LowerOverlap(p, k);
    DotIsDropped(h);
    assert OverlapHost(p, h);
    PanicsExactly(r, host);
  }

  // A range panics on some host exactly when its prefix and suffix can overlap.
  lemma PanicsIffOverlap(r: Range)
    requires LowerPattern(r.pattern)
    ensures (exists host :: Lookup(r, host).Panics?) <==> Overlaps(r.pattern)
  {
    var p := r.pattern;
    if host :| Lookup(r, host).Panics? {
      PanicsExactly(r, host);
    }
    if k :| 0 < k <= |p.prefix| && k <= |p.suffix| && p.prefix[|p.prefix| - k..] == p.suffix[..k] {
      var host := OverlapPanics(r, k);
    }
  }
}
