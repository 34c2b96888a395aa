/**
 Tab-separated rows of run artifacts (escapeTSVField and writeTSVRow in
 cmd/uptime-bench-finalize/main.go, escapeHarnessTSVField in cmd/harness/artifacts.go), and
 a reader that gets the fields back.
 */
module Tsv {
  import opened Seqs

  // strings.ReplaceAll of one character.
  function Replace(s: string, c: char, with_: string): string {
    if s == "" then "" else (if s[0] == c then with_ else [s[0]]) + Replace(s[1..], c, with_)
  }

  // Four replacements, one after the other, backslashes first.
  function EscapeChained(s: string): string {
    Replace(Replace(Replace(Replace(s, '\\', "\\\\"), '\t', "\\t"), '\r', "\\r"), '\n', "\\n")
  }

  function EscapeChar(c: char): string {
    if c == '\\' then "\\\\" else if c == '\t' then "\\t" else if c == '\n' then "\\n"
    else if c == '\r' then "\\r" else [c]
  }

  // One pass with all four replacements.
  function Escape(s: string): string {
    if s == "" then "" else EscapeChar(s[0]) + Escape(s[1..])
  }

  lemma {:induction false} ReplaceSum(a: string, b: string, c: char, with_: string)
    ensures Replace(a + b, c, with_) == Replace(a, c, with_) + Replace(b, c, with_)
  {
    if a == "" {
      assert a + b == b;
    } else {
      assert (a + b)[1..] == a[1..] + b;
      ReplaceSum(a[1..], b, c, with_);
      Assoc(if a[0] == c then with_ else [a[0]], Replace(a[1..], c, with_), Replace(b, c, with_));
    }
  }

  lemma ChainedSum(a: string, b: string)
    ensures EscapeChained(a + b) == EscapeChained(a) + EscapeChained(b)
  {
    var a1, b1 := Replace(a, '\\', "\\\\"), Replace(b, '\\', "\\\\");
    var a2, b2 := Replace(a1, '\t', "\\t"), Replace(b1, '\t', "\\t");
    ReplaceSum(a, b, '\\', "\\\\");
    ReplaceSum(a1, b1, '\t', "\\t");
    ReplaceSum(a2, b2, '\r', "\\r");
    ReplaceSum(Replace(a2, '\r', "\\r"), Replace(b2, '\r', "\\r"), '\n', "\\n");
  }

  lemma ReplaceOne(x: char, c: char, with_: string)
    ensures Replace([x], c, with_) == if x == c then with_ else [x]
  {
    assert [x][1..] == "";
    assert with_ + "" == with_ && [x] + "" == [x];
  }

  lemma ReplacePair(x: char, c: char, with_: string)
    requires c != '\\' && x != c
    ensures Replace(['\\', x], c, with_) == ['\\', x]
  {
    assert ['\\', x] == ['\\'] + [x];
    ReplaceSum(['\\'], [x], c, with_);
    ReplaceOne('\\', c, with_);
    ReplaceOne(x, c, with_);
  }

  lemma ChainedOne(x: char)
    ensures EscapeChained([x]) == EscapeChar(x)
  {
    ReplaceOne(x, '\\', "\\\\");
    ReplaceOne(x, '\t', "\\t");
    ReplaceOne(x, '\r', "\\r");
    ReplaceOne(x, '\n', "\\n");
    ReplacePair('\\', '\t', "\\t");
    ReplacePair('\\', '\r', "\\r");
    ReplacePair('\\', '\n', "\\n");
    ReplacePair('t', '\r', "\\r");
    ReplacePair('t', '\n', "\\n");
    ReplacePair('r', '\n', "\\n");
  }

  // The chained replacements and the single pass give the same text: no replacement
  // touches what an earlier one wrote.
  lemma {:induction false} ChainedIsOnePass(s: string)
    ensures EscapeChained(s) == Escape(s)
  {
    if s != "" {
      assert s == [s[0]] + s[1..];
      ChainedSum([s[0]], s[1..]);
      ChainedOne(s[0]);
      ChainedIsOnePass(s[1..]);
    }
  }

  // What is written for each of the four characters; any other stands for itself.
  lemma EscapedCharacters(c: char)
    ensures EscapeChained("\\") == "\\\\" && EscapeChained("\t") == "\\t"
    ensures EscapeChained("\n") == "\\n" && EscapeChained("\r") == "\\r"
    ensures c != '\\' && c != '\t' && c != '\n' && c != '\r' ==> EscapeChained([c]) == [c]
  {
    ChainedOne('\\');
    ChainedOne('\t');
    ChainedOne('\n');
    ChainedOne('\r');
    ChainedOne(c);
  }

  // ----- reading back ---------------------------------------------------------------------------

  function Unescape(s: string): string
    decreases |s|
  {
    if s == "" then ""
    else if s[0] == '\\' && |s| > 1 then
      [if s[1] == 't' then '\t' else if s[1] == 'n' then '\n' else if s[1] == 'r' then '\r' else s[1]]
      + Unescape(s[2..])
    else [s[0]] + Unescape(s[1..])
  }

  lemma {:induction false} UnescapeEscape(s: string)
    ensures Unescape(Escape(s)) == s
  {
    if s != "" {
      UnescapeEscape(s[1..]);
      var e, rest := EscapeChar(s[0]), Escape(s[1..]);
      assert (e + rest)[|e|..] == rest;
      assert s == [s[0]] + s[1..];
    }
  }

  lemma {:induction false} EscapeHasNoBreaks(s: string)
    ensures '\t' !in Escape(s) && '\n' !in Escape(s) && '\r' !in Escape(s)
  {
    if s != "" {
      EscapeHasNoBreaks(s[1..]);
    }
  }

  function RowFrom(fields: seq<string>, first: bool): string {
    if fields == [] then "\n" else (if first then "" else "\t") + (Escape(fields[0]) + RowFrom(fields[1..], false))
  }

  function Row(fields: seq<string>): string {
    RowFrom(fields, true)
  }

  method WriteTSVRow(fields: seq<string>) returns (out: string)
    ensures out == Row(fields)
  {
    out := "";
    for i := 0 to |fields|
      invariant Row(fields) == out + RowFrom(fields[i..], i == 0)
    {
      ghost var rest := fields[i..];
      assert rest[0] == fields[i] && rest[1..] == fields[i + 1..];
      var sep := if i > 0 then "\t" else "";
      ChainedIsOnePass(fields[i]);
      Assoc(out, sep, Escape(fields[i]) + RowFrom(rest[1..], false));
      Assoc(out + sep, Escape(fields[i]), RowFrom(rest[1..], false));
      out := out + sep;
      out := out + EscapeChained(fields[i]);
    }
    out := out + "\n";
  }

  datatype Read = Read(fields: seq<string>, rest: string)

  // One row: fields end at tabs, the row at a line feed.
  function ReadRow(s: string, field: string): Read
    decreases |s|
  {
    if s == "" then Read([Unescape(field)], "")
    else if s[0] == '\n' then Read([Unescape(field)], s[1..])
    else if s[0] == '\t' then
      var r := ReadRow(s[1..], "");
      Read([Unescape(field)] + r.fields, r.rest)
    else ReadRow(s[1..], field + [s[0]])
  }

  lemma {:induction false} ReadText(text: string, rest: string, field: string)
    requires '\t' !in text && '\n' !in text
    ensures ReadRow(text + rest, field) == ReadRow(rest, field + text)
    decreases |text|
  {
    if text == "" {
      assert text + rest == rest && field + text == field;
    } else {
      assert (text + rest)[1..] == text[1..] + rest;
      ReadText(text[1..], rest, field + [text[0]]);
      assert (field + [text[0]]) + text[1..] == field + text;
    }
  }

  // A written row with at least one field is read back field for field, and reading stops
  // where the next row begins.
  lemma {:induction false} RowRoundTrip(fields: seq<string>, after: string)
    requires fields != []
    ensures ReadRow(Row(fields) + after, "") == Read(fields, after)
    decreases fields
  {
    hide Escape;
    var e, tail := Escape(fields[0]), RowFrom(fields[1..], false);
    assert Row(fields) == e + tail;
    FieldReads(fields[0], tail, after);
    if |fields| == 1 {
      assert tail + after == "\n" + after;
      assert fields == [fields[0]];
    } else {
      assert tail == "\t" + Row(fields[1..]);
      assert (tail + after)[1..] == Row(fields[1..]) + after;
      RowRoundTrip(fields[1..], after);
      assert fields == [fields[0]] + fields[1..];
    }
  }

  // A field that a tab or line feed follows.
  lemma FieldReads(field: string, tail: string, after: string)
    requires tail != "" && (tail[0] == '\t' || tail[0] == '\n')
    ensures ReadRow((Escape(field) + tail) + after, "")
         == if tail[0] == '\n' then Read([field], (tail + after)[1..])
            else var r := ReadRow((tail + after)[1..], ""); Read([field] + r.fields, r.rest)
  {
    hide Escape, Unescape;
    var e := Escape(field);
    EscapeHasNoBreaks(field);
    UnescapeEscape(field);
    Assoc(e, tail, after);
    ReadText(e, tail + after, "");
    assert "" + e == e;
  }
}
