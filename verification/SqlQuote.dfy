/**
 Quoting of SQL names (quoteSQLString and quoteSQLIdentifier in
 internal/jetmoncapacity/db_operational.go) as the statement splitter reads it back.
 */
module SqlQuote {
  import opened Seqs
  import opened SqlSplit

  // Every occurrence of q doubled, as strings.ReplaceAll does with one character.
  function Doubled(v: string, q: char): string {
    if v == "" then "" else (if v[0] == q then [q, q] else [v[0]]) + Doubled(v[1..], q)
  }

  function QuoteSQLString(v: string): string {
    "'" + (Doubled(v, '\'') + "'")
  }

  function QuoteSQLIdentifier(v: string): string {
    "`" + (Doubled(v, '`') + "`")
  }

  // ----- string literals ----------------------------------------------------------------------

  // Read from the left, every backslash in v is followed by a character other than a
  // quote, which it takes along.
  predicate BackslashesPaired(v: string) {
    if v == "" then true
    else if v[0] == '\\' then |v| > 1 && v[1] != '\'' && BackslashesPaired(v[2..])
    else BackslashesPaired(v[1..])
  }

  // Where a scanner that is inside a string literal at the head of s leaves it.
  function LiteralEnd(s: string): Option<nat>
    decreases |s|
  {
    if s == "" then None
    else
      var (n, m) := Advance(s, Single);
      if m.Normal? then Some(n)
      else
        var e := LiteralEnd(s[n..]);
        if e.None? then None else Some(n + e.value)
  }

  predicate NoQuoteAhead(rest: string) {
    rest == "" || rest[0] != '\''
  }

  // The rest of the text after the opening quote of v's literal.
  function LiteralTail(v: string, rest: string): string {
    Doubled(v, '\'') + ("'" + rest)
  }

  lemma TailStep(v: string, rest: string)
    requires v != ""
    ensures v[0] != '\'' ==> LiteralTail(v, rest) == [v[0]] + LiteralTail(v[1..], rest)
    ensures v[0] == '\'' ==> LiteralTail(v, rest) == "''" + LiteralTail(v[1..], rest)
  {
    Assoc(if v[0] == '\'' then "''" else [v[0]], Doubled(v[1..], '\''), "'" + rest);
  }

  lemma LiteralEndPositive(s: string)
    ensures LiteralEnd(s).Some? ==> LiteralEnd(s).value > 0
  {
  }

  lemma EndAfter(s: string, n: nat, t: string)
    requires s != "" && Advance(s, Single) == (n, Single) && s[n..] == t
    ensures LiteralEnd(s) == if LiteralEnd(t).None? then None else Some(n + LiteralEnd(t).value)
  {
  }

  // Inside a literal one quote too many, the scanner never closes at the right place.
  lemma {:induction false} OutOfStep(w: string, rest: string)
    requires NoQuoteAhead(rest)
    ensures LiteralEnd("'" + LiteralTail(w, rest)) != Some(|Doubled(w, '\'')| + 2)
    decreases |w|
  {
    var s := "'" + LiteralTail(w, rest);
    if w == "" {
      assert s == "''" + rest && s[2..] == rest;
      EndAfter(s, 2, rest);
      LiteralEndPositive(rest);
    } else {
      TailStep(w, rest);
      if w[0] == '\'' {
        assert s == "''" + ("'" + LiteralTail(w[1..], rest));
        assert s[2..] == "'" + LiteralTail(w[1..], rest);
        EndAfter(s, 2, "'" + LiteralTail(w[1..], rest));
        OutOfStep(w[1..], rest);
      } else {
        assert s[1] == w[0] && Advance(s, Single) == (1, Normal);
      }
    }
  }

  lemma BackslashDecides(v: string, rest: string)
    requires NoQuoteAhead(rest) && v != "" && v[0] == '\\'
    ensures |v| > 1 && v[1] != '\'' ==>
              var e := LiteralEnd(LiteralTail(v[2..], rest));
              |Doubled(v, '\'')| == 2 + |Doubled(v[2..], '\'')|
              && LiteralEnd(LiteralTail(v, rest)) == if e.None? then None else Some(2 + e.value)
    ensures !(|v| > 1 && v[1] != '\'') ==> LiteralEnd(LiteralTail(v, rest)) != Some(|Doubled(v, '\'')| + 1)
  {
    hide LiteralEnd, LiteralTail, Doubled, NoQuoteAhead;
    if |v| == 1 {
      assert v == "\\";
      BackslashAtEnd(rest);
    } else {
      assert v == ['\\', v[1]] + v[2..];
      if v[1] == '\'' {
        BackslashBeforeQuote(v[2..], rest);
      } else {
        BackslashBeforePlain(v[1], v[2..], rest);
      }
    }
  }

  lemma EmptyCloses(rest: string)
    requires NoQuoteAhead(rest)
    ensures LiteralEnd(LiteralTail("", rest)) == Some(1)
  {
    assert LiteralTail("", rest) == "'" + rest;
  }

  // A quoted value is read as one string literal that closes exactly at its final quote if
  // and only if its backslashes are paired: quoteSQLString does not escape them.
  lemma {:induction false} LiteralClosesIff(v: string, rest: string)
    requires NoQuoteAhead(rest)
    ensures LiteralEnd(LiteralTail(v, rest)) == Some(|Doubled(v, '\'')| + 1) <==> BackslashesPaired(v)
    decreases |v|
  {
    hide LiteralEnd, LiteralTail, NoQuoteAhead;
    var s := LiteralTail(v, rest);
    if v == "" {
      EmptyCloses(rest);
    } else {
      TailStep(v, rest);
      if v[0] == '\'' {
        assert s[2..] == LiteralTail(v[1..], rest);
        EndAfter(s, 2, LiteralTail(v[1..], rest));
        LiteralClosesIff(v[1..], rest);
      } else if v[0] != '\\' {
        assert s[1..] == LiteralTail(v[1..], rest);
        EndAfter(s, 1, LiteralTail(v[1..], rest));
        LiteralClosesIff(v[1..], rest);
      } else {
        BackslashDecides(v, rest);
        if |v| > 1 && v[1] != '\'' {
          LiteralClosesIff(v[2..], rest);
        }
      }
    }
  }

  // A backslash at the head takes the closing quote along,
  lemma BackslashAtEnd(rest: string)
    requires NoQuoteAhead(rest)
    ensures LiteralEnd(LiteralTail("\\", rest)) != Some(|Doubled("\\", '\'')| + 1)
  {
    var v := "\\";
    var s := LiteralTail(v, rest);
    TailStep(v, rest);
    assert v[1..] == "" && LiteralTail("", rest) == "'" + rest;
    assert s == "\\'" + rest && s[2..] == rest;
    EndAfter(s, 2, rest);
    LiteralEndPositive(rest);
    assert |Doubled(v, '\'')| == 1 + |Doubled("", '\'')|;
  }

  // or the first half of a doubled quote,
  lemma BackslashBeforeQuote(w: string, rest: string)
    requires NoQuoteAhead(rest)
    ensures LiteralEnd(LiteralTail("\\'" + w, rest)) != Some(|Doubled("\\'" + w, '\'')| + 1)
  {
    var v := "\\'" + w;
    var s := LiteralTail(v, rest);
    TailStep(v, rest);
    assert v[1..] == "'" + w && v[1..][1..] == w;
    TailStep(v[1..], rest);
    assert s == "\\'" + ("'" + LiteralTail(w, rest));
    assert s[2..] == "'" + LiteralTail(w, rest);
    EndAfter(s, 2, "'" + LiteralTail(w, rest));
    OutOfStep(w, rest);
    assert |Doubled(v, '\'')| == 1 + |Doubled(v[1..], '\'')| == 3 + |Doubled(w, '\'')|;
  }

  lemma PlainPairTail(c: char, w: string, rest: string)
    requires c != '\''
    ensures |Doubled(['\\', c] + w, '\'')| == 2 + |Doubled(w, '\'')|
    ensures LiteralTail(['\\', c] + w, rest) == ['\\'] + ([c] + LiteralTail(w, rest))
  {
    var v := ['\\', c] + w;
    TailStep(v, rest);
    assert v[1..] == [c] + w && ([c] + w)[1..] == w;
    TailStep([c] + w, rest);
    assert |Doubled(v, '\'')| == 1 + |Doubled([c] + w, '\'')|;
  }

  // or, harmlessly, an ordinary character.
  lemma BackslashBeforePlain(c: char, w: string, rest: string)
    requires c != '\''
    ensures |Doubled(['\\', c] + w, '\'')| == 2 + |Doubled(w, '\'')|
    ensures var e := LiteralEnd(LiteralTail(w, rest));
            LiteralEnd(LiteralTail(['\\', c] + w, rest)) == if e.None? then None else Some(2 + e.value)
  {
    PlainPairTail(c, w, rest);
    PairInLiteral(c, LiteralTail(w, rest));
  }

  lemma PairInLiteral(c: char, t: string)
    requires c != '\''
    ensures var e := LiteralEnd(t);
            LiteralEnd(['\\'] + ([c] + t)) == if e.None? then None else Some(2 + e.value)
  {
    var s := ['\\'] + ([c] + t);
    assert s[1..] == [c] + t && ([c] + t)[1..] == t && s[2..] == t;
    if c == '\0' {
      EndAfter([c] + t, 1, t);
      EndAfter(s, 1, [c] + t);
    } else {
      EndAfter(s, 2, t);
    }
  }

  // ----- literals and identifiers inside a statement --------------------------------------------

  lemma {:induction false} LiteralEndIsModeAt(s: string, k: nat)
    requires k <= |s| && LiteralEnd(s) == Some(k)
    ensures ModeAt(s, k, Single, false) == Some(Normal)
    decreases |s|
  {
    var (n, m) := Advance(s, Single);
    if !m.Normal? {
      LiteralEndPositive(s[n..]);
      LiteralEndIsModeAt(s[n..], k - n);
    }
  }

  lemma StringCarries(v: string, rest: string)
    requires BackslashesPaired(v) && NoQuoteAhead(rest)
    ensures Carries(QuoteSQLString(v), rest)
  {
    var s := QuoteSQLString(v) + rest;
    var d := Doubled(v, '\'');
    Assoc("'", d + "'", rest);
    Assoc(d, "'", rest);
    assert s == "'" + LiteralTail(v, rest) && s[1..] == LiteralTail(v, rest);
    assert Advance(s, Normal) == (1, Single);
    LiteralClosesIff(v, rest);
    LiteralEndIsModeAt(LiteralTail(v, rest), |d| + 1);
  }

  // In backticks a doubled backtick leaves the quotes and enters them again at once.
  lemma {:induction false} BackticksPass(v: string, rest: string)
    ensures ModeAt(Doubled(v, '`') + ("`" + rest), |Doubled(v, '`')| + 1, Backtick, false) == Some(Normal)
    decreases |v|
  {
    var s := Doubled(v, '`') + ("`" + rest);
    if v == "" {
      assert s == "`" + rest && s[1..] == rest;
    } else {
      var t := Doubled(v[1..], '`') + ("`" + rest);
      Assoc(if v[0] == '`' then "``" else [v[0]], Doubled(v[1..], '`'), "`" + rest);
      BackticksPass(v[1..], rest);
      if v[0] == '`' {
        assert s == "``" + t && s[1..] == "`" + t && s[1..][1..] == t;
        assert Advance(s, Backtick) == (1, Normal) && Advance(s[1..], Normal) == (1, Backtick);
      } else {
        assert s == [v[0]] + t && s[1..] == t;
      }
    }
  }

  lemma IdentifierCarries(v: string, rest: string)
    ensures Carries(QuoteSQLIdentifier(v), rest)
  {
    var s := QuoteSQLIdentifier(v) + rest;
    var d := Doubled(v, '`');
    Assoc("`", d + "`", rest);
    Assoc(d, "`", rest);
    assert s == "`" + (d + ("`" + rest)) && s[1..] == d + ("`" + rest);
    assert Advance(s, Normal) == (1, Backtick);
    BackticksPass(v, rest);
  }

  // ----- quoted text that the scanner does not enter in normal mode ---------------------------------

  // From any mode but the normal one, the scanner does not reach position k in normal mode.
  ghost predicate Hopeless(s: string, k: nat) {
    k <= |s| && forall m: Mode :: m != Normal ==> ModeAt(s, k, m, false) != Some(Normal)
  }

  lemma HopelessEnd(s: string)
    ensures Hopeless(s, 0)
  {
  }

  lemma HopelessFits(s: string, k: nat)
    requires Hopeless(s, k)
    ensures k <= |s|
  {
  }

  predicate IsQuote(q: char) {
    q == '\'' || q == '`'
  }

  function QuoteMode(q: char): Mode {
    if q == '\'' then Single else Backtick
  }

  // What is left of a quoted text: the second half of a doubled quote, if the scanner
  // stands in the middle of one, the doubled characters, the closing quote, what follows.
  function Left(v: string, q: char, half: bool, after: string): string {
    (if half then [q] else "") + (Doubled(v, q) + ([q] + after))
  }

  function LeftLength(v: string, q: char, half: bool): nat {
    (if half then 1 else 0) + |Doubled(v, q)| + 1
  }

  lemma LeftShape(v: string, q: char, after: string)
    ensures Left(v, q, true, after) == [q] + Left(v, q, false, after)
    ensures v == "" ==> Left(v, q, false, after) == [q] + after
    ensures v != "" && v[0] == q ==> Left(v, q, false, after) == [q] + Left(v[1..], q, true, after)
    ensures v != "" && v[0] != q ==> Left(v, q, false, after) == [v[0]] + Left(v[1..], q, false, after)
  {
    if v != "" {
      Assoc(if v[0] == q then [q, q] else [v[0]], Doubled(v[1..], q), [q] + after);
      if v[0] == q {
        assert [q, q] == [q] + [q];
        Assoc([q], [q], Doubled(v[1..], q) + ([q] + after));
      }
    }
  }

  lemma LeftFits(v: string, q: char, half: bool, after: string)
    ensures |Left(v, q, half, after)| == LeftLength(v, q, half) + |after|
  {
  }

  // The scanner's idea of where it is does not match the quoting.
  predicate OutOfPhase(q: char, half: bool, m: Mode) {
    if half then m != Normal else m != QuoteMode(q)
  }

  // In that case it never gets back into step inside the quoted text.
  lemma {:induction false} StaysOutOfPhase(v: string, q: char, half: bool, m: Mode, after: string, k: nat)
    requires IsQuote(q) && OutOfPhase(q, half, m) && Hopeless(after, k) && (after == "" || after[0] != q)
    ensures LeftLength(v, q, half) + k <= |Left(v, q, half, after)|
    ensures ModeAt(Left(v, q, half, after), LeftLength(v, q, half) + k, m, false) != Some(Normal)
    decreases |v|, half
  {
    hide Hopeless, Left, LeftLength, ModeAt, Doubled;
    LeftFits(v, q, half, after);
    HopelessFits(after, k);
    LengthShape(v, q);
    if half {
      HalfStep(v, q, m, after, k);
    } else if v == "" {
      LastStep(q, m, after, k);
    } else if v[0] == q {
      LeftShape(v, q, after);
      var s, t := Left(v, q, false, after), Left(v[1..], q, true, after);
      var m' := if m == Normal then QuoteMode(q) else m;
      StaysOutOfPhase(v[1..], q, true, m', after, k);
      QuoteStep(s, q, m, t);
      StepTo(s, LeftLength(v, q, false) + k, m, 1, m', t);
    } else {
      CharStep(v, q, m, after, k);
    }
  }

  lemma LengthShape(v: string, q: char)
    ensures LeftLength(v, q, true) == 1 + LeftLength(v, q, false) && LeftLength(v, q, false) >= 1
    ensures v == "" ==> LeftLength(v, q, false) == 1
    ensures v != "" && v[0] == q ==> LeftLength(v, q, false) == 1 + LeftLength(v[1..], q, true)
    ensures v != "" && v[0] != q ==> LeftLength(v, q, false) == 1 + LeftLength(v[1..], q, false)
  {
  }

  // A quote seen from a mode that it does not close.
  lemma QuoteStep(s: string, q: char, m: Mode, t: string)
    requires IsQuote(q) && m != QuoteMode(q) && s == [q] + t
    ensures Advance(s, m) == (1, if m == Normal then QuoteMode(q) else m) && s[1..] == t && s[0] == q
  {
  }

  lemma HopelessMode(s: string, k: nat, m: Mode)
    requires Hopeless(s, k) && m != Normal
    ensures ModeAt(s, k, m, false) != Some(Normal)
  {
  }

  lemma LastStep(q: char, m: Mode, after: string, k: nat)
    requires IsQuote(q) && m != QuoteMode(q) && Hopeless(after, k)
    ensures LeftLength("", q, false) + k <= |Left("", q, false, after)|
    ensures ModeAt(Left("", q, false, after), LeftLength("", q, false) + k, m, false) != Some(Normal)
  {
    hide Hopeless, Left, LeftLength, ModeAt, Doubled;
    LeftShape("", q, after);
    LengthShape("", q);
    HopelessFits(after, k);
    var s, m' := [q] + after, if m == Normal then QuoteMode(q) else m;
    QuoteStep(s, q, m, after);
    StepTo(s, 1 + k, m, 1, m', after);
    HopelessMode(after, k, m');
  }

  // From the middle of a doubled quote: it closes, or pairs with the next one, or is not seen.
  lemma HalfStep(v: string, q: char, m: Mode, after: string, k: nat)
    requires IsQuote(q) && m != Normal && Hopeless(after, k) && (after == "" || after[0] != q)
    ensures LeftLength(v, q, true) + k <= |Left(v, q, true, after)|
    ensures ModeAt(Left(v, q, true, after), LeftLength(v, q, true) + k, m, false) != Some(Normal)
    decreases |v|, true, 0
  {
    hide Hopeless, Left, LeftLength, ModeAt, Doubled;
    LeftShape(v, q, after);
    LengthShape(v, q);
    LeftFits(v, q, true, after);
    HopelessFits(after, k);
    var s, t, n := Left(v, q, true, after), Left(v, q, false, after), LeftLength(v, q, true) + k;
    assert s[0] == q && s[1..] == t;
    if m == Single && q == '\'' && (v == "" || v[0] == q) {
      var u := if v == "" then after else Left(v[1..], q, true, after);
      assert t == [q] + u;
      assert Advance(s, m) == (2, Single) && s[2..] == u;
      StepTo(s, n, m, 2, Single, u);
      if v == "" {
        HopelessMode(after, k, Single);
      } else {
        StaysOutOfPhase(v[1..], q, true, Single, after, k);
      }
    } else {
      var m' := if m == QuoteMode(q) then Normal else m;
      assert v != "" && v[0] != q ==> t[0] != q;
      assert Advance(s, m) == (1, m');
      StepTo(s, n, m, 1, m', t);
      StaysOutOfPhase(v, q, false, m', after, k);
    }
  }

  // What one character that is not the quote can do: if it takes a quote along, it was a
  // backslash in another kind of literal.
  lemma CharAdvances(s: string, q: char, m: Mode)
    requires IsQuote(q) && m != QuoteMode(q) && s != "" && s[0] != q && !(m.Normal? && s[0] == ';')
    ensures var (n, m') := Advance(s, m);
            m' != QuoteMode(q) && (n == 2 ==> |s| > 1 && (s[1] == q ==> m' == m && m' != Normal))
  {
  }

  lemma CharStep(v: string, q: char, m: Mode, after: string, k: nat)
    requires IsQuote(q) && m != QuoteMode(q) && Hopeless(after, k) && (after == "" || after[0] != q)
    requires v != "" && v[0] != q
    ensures LeftLength(v, q, false) + k <= |Left(v, q, false, after)|
    ensures ModeAt(Left(v, q, false, after), LeftLength(v, q, false) + k, m, false) != Some(Normal)
    decreases |v|, false, 0
  {
    hide Hopeless, Left, LeftLength, Doubled, Advance;
    LeftShape(v, q, after);
    LengthShape(v, q);
    LeftFits(v, q, false, after);
    HopelessFits(after, k);
    var s, t, n := Left(v, q, false, after), Left(v[1..], q, false, after), LeftLength(v, q, false) + k;
    assert s[0] == v[0] && s[1..] == t;
    if !(m.Normal? && s[0] == ';') {
      CharAdvances(s, q, m);
      var (w, m') := Advance(s, m);
      if w == 1 {
        StepTo(s, n, m, 1, m', t);
        StaysOutOfPhase(v[1..], q, false, m', after, k);
      } else {
        LeftShape(v[1..], q, after);
        LengthShape(v[1..], q);
        assert s[1] == t[0] && s[2..] == t[1..];
        PairStep(v[1..], q, m', after, k, t);
        StepTo(s, n, m, 2, m', t[1..]);
      }
    }
  }

  // After a character that took the next one along.
  lemma PairStep(v: string, q: char, m: Mode, after: string, k: nat, t: string)
    requires IsQuote(q) && m != QuoteMode(q) && Hopeless(after, k) && (after == "" || after[0] != q)
    requires t == Left(v, q, false, after) && t != "" && (t[0] == q ==> m != Normal)
    ensures LeftLength(v, q, false) + k <= |t|
    ensures ModeAt(t[1..], LeftLength(v, q, false) - 1 + k, m, false) != Some(Normal)
    decreases |v|, true, 1
  {
    hide Hopeless, Left, LeftLength, ModeAt, Doubled;
    LeftShape(v, q, after);
    LengthShape(v, q);
    LeftFits(v, q, false, after);
    HopelessFits(after, k);
    if v == "" {
      assert t[1..] == after;
      HopelessMode(after, k, m);
    } else if v[0] == q {
      assert t[1..] == Left(v[1..], q, true, after);
      StaysOutOfPhase(v[1..], q, true, m, after, k);
    } else {
      assert t[1..] == Left(v[1..], q, false, after);
      StaysOutOfPhase(v[1..], q, false, m, after, k);
    }
  }

  // Opening quote, doubled characters and closing quote.
  lemma QuotedIsHopeless(v: string, q: char, after: string, k: nat)
    requires IsQuote(q) && Hopeless(after, k) && (after == "" || after[0] != q)
    ensures var quoted := [q] + (Doubled(v, q) + [q]); Hopeless(quoted + after, |quoted| + k)
  {
    var quoted := [q] + (Doubled(v, q) + [q]);
    Assoc([q], Doubled(v, q) + [q], after);
    Assoc(Doubled(v, q), [q], after);
    var s, n := quoted + after, |quoted| + k;
    assert s == Left(v, q, true, after) && |quoted| == LeftLength(v, q, true);
    forall m: Mode | m != Normal
      ensures ModeAt(s, n, m, false) != Some(Normal)
    {
      StaysOutOfPhase(v, q, true, m, after, k);
    }
  }

  // A literal that the scanner does enter in step gets it out of step if a backslash in it
  // is not paired.
  lemma {:induction false} UnpairedLoses(v: string, after: string, k: nat)
    requires !BackslashesPaired(v) && Hopeless(after, k) && NoQuoteAhead(after)
    ensures LeftLength(v, '\'', false) + k <= |Left(v, '\'', false, after)|
    ensures ModeAt(Left(v, '\'', false, after), LeftLength(v, '\'', false) + k, Single, false) != Some(Normal)
    decreases |v|
  {
    hide Hopeless, Left, LeftLength, ModeAt, Doubled;
    var q := '\'';
    LeftShape(v, q, after);
    LengthShape(v, q);
    LeftFits(v, q, false, after);
    HopelessFits(after, k);
    var s, n := Left(v, q, false, after), LeftLength(v, q, false) + k;
    if v[0] == '\\' {
      UnpairedBackslash(v, after, k);
    } else if v[0] == q {
      var t := Left(v[1..], q, false, after);
      LeftShape(v[1..], q, after);
      LengthShape(v[1..], q);
      assert s[0] == q && s[1] == q && s[2..] == t;
      assert Advance(s, Single) == (2, Single);
      UnpairedLoses(v[1..], after, k);
      StepTo(s, n, Single, 2, Single, t);
    } else {
      var t := Left(v[1..], q, false, after);
      assert s[0] == v[0] && s[1..] == t;
      assert Advance(s, Single) == (1, Single);
      UnpairedLoses(v[1..], after, k);
      StepTo(s, n, Single, 1, Single, t);
    }
  }

  lemma UnpairedBackslash(v: string, after: string, k: nat)
    requires !BackslashesPaired(v) && Hopeless(after, k) && NoQuoteAhead(after) && v != "" && v[0] == '\\'
    ensures LeftLength(v, '\'', false) + k <= |Left(v, '\'', false, after)|
    ensures ModeAt(Left(v, '\'', false, after), LeftLength(v, '\'', false) + k, Single, false) != Some(Normal)
    decreases |v|, 0
  {
    hide Hopeless, Left, LeftLength, ModeAt, Doubled;
    var q := '\'';
    LeftShape(v, q, after);
    LengthShape(v, q);
    LeftFits(v, q, false, after);
    HopelessFits(after, k);
    var w := v[1..];
    var s, t, n := Left(v, q, false, after), Left(w, q, false, after), LeftLength(v, q, false) + k;
    LeftShape(w, q, after);
    LengthShape(w, q);
    assert s[0] == '\\' && s[1..] == t;
    if w == "" || w[0] == q {
      assert t[0] == q && s[2..] == t[1..];
      assert Advance(s, Single) == (2, Single);
      PairStepSingle(w, after, k, t);
      StepTo(s, n, Single, 2, Single, t[1..]);
    } else {
      var u := Left(w[1..], q, false, after);
      assert w[1..] == v[2..];
      UnpairedLoses(w[1..], after, k);
      assert t[0] == w[0] && t[1..] == u && s[2..] == u;
      if w[0] == '\0' {
        assert Advance(s, Single) == (1, Single) && Advance(t, Single) == (1, Single);
        StepTo(s, n, Single, 1, Single, t);
        StepTo(t, n - 1, Single, 1, Single, u);
      } else {
        assert Advance(s, Single) == (2, Single);
        StepTo(s, n, Single, 2, Single, u);
      }
    }
  }

  // A backslash took the closing quote along, or the first half of a doubled one.
  lemma PairStepSingle(v: string, after: string, k: nat, t: string)
    requires Hopeless(after, k) && NoQuoteAhead(after) && (v == "" || v[0] == '\'')
    requires t == Left(v, '\'', false, after) && t != ""
    ensures LeftLength(v, '\'', false) + k <= |t|
    ensures ModeAt(t[1..], LeftLength(v, '\'', false) - 1 + k, Single, false) != Some(Normal)
  {
    hide Hopeless, Left, LeftLength, ModeAt, Doubled;
    LeftShape(v, '\'', after);
    LengthShape(v, '\'');
    LeftFits(v, '\'', false, after);
    HopelessFits(after, k);
    if v == "" {
      assert t[1..] == after;
      HopelessMode(after, k, Single);
    } else {
      assert t[1..] == Left(v[1..], '\'', true, after);
      StaysOutOfPhase(v[1..], '\'', true, Single, after, k);
    }
  }

  lemma UnpairedLiteral(v: string, after: string, k: nat)
    requires !BackslashesPaired(v) && Hopeless(after, k) && NoQuoteAhead(after)
    ensures |QuoteSQLString(v)| + k <= |QuoteSQLString(v) + after|
    ensures ModeAt(QuoteSQLString(v) + after, |QuoteSQLString(v)| + k, Normal, false) != Some(Normal)
  {
    var s, t := QuoteSQLString(v) + after, Left(v, '\'', false, after);
    Assoc("'", Doubled(v, '\'') + "'", after);
    Assoc(Doubled(v, '\''), "'", after);
    assert s == "'" + t && s[1..] == t;
    UnpairedLoses(v, after, k);
    assert Advance(s, Normal) == (1, Single);
    StepTo(s, |QuoteSQLString(v)| + k, Normal, 1, Single, t);
  }
}
