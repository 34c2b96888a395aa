/**
 Reading the VALUES rows of one INSERT line of a SQL dump
 (parseInsertValuesLine in cmd/uptime-bench-veriflier-url-once/main.go), and a printer
 of such lines that it inverts.
 */
module InsertValues {
  import opened Seqs
  import opened Text

  datatype Status = Parsed | CallbackFailed | Unterminated

  // The rows handed to the callback, in order, and how the scan ended.
  datatype Scanned = Scanned(rows: seq<seq<string>>, status: Status)

  datatype Flags = Flags(fields: seq<string>, field: string, inRow: bool, inQuote: bool, quoted: bool)

  const OUTSIDE := Flags([], "", false, false, false)

  function FlushField(f: Flags): Flags {
    f.(fields := f.fields + [if f.quoted then f.field else TrimSpace(f.field)], field := "", quoted := false)
  }

  function Write(f: Flags, c: char): Flags {
    f.(field := f.field + [c])
  }

  function Deliver(row: seq<string>, rest: Scanned): Scanned {
    rest.(rows := [row] + rest.rows)
  }

  // The scan of the text v that is still ahead. accept is the callback: false is an error.
  function Scan(v: string, f: Flags, accept: seq<string> -> bool): Scanned
    decreases |v|
  {
    if v == "" then
      Scanned([], if f.inQuote || f.inRow then Unterminated else Parsed)
    else if f.inQuote then
      if v[0] == '\\' then
        if |v| > 1 then Scan(v[2..], Write(f, v[1]), accept) else Scan(v[1..], f, accept)
      else if v[0] == '\'' then
        if |v| > 1 && v[1] == '\'' then Scan(v[2..], Write(f, '\''), accept)
        else Scan(v[1..], f.(inQuote := false), accept)
      else
        Scan(v[1..], Write(f, v[0]), accept)
    else if v[0] == '(' then
      Scan(v[1..], if f.inRow then Write(f, '(') else Flags([], "", true, false, false), accept)
    else if v[0] == '\'' then
      Scan(v[1..], f.(inQuote := true, quoted := true), accept)
    else if v[0] == ',' then
      Scan(v[1..], if f.inRow then FlushField(f) else f, accept)
    else if v[0] == ')' && f.inRow then
      var row := FlushField(f).fields;
      if accept(row) then Deliver(row, Scan(v[1..], FlushField(f).(fields := [], inRow := false), accept))
      else Scanned([row], CallbackFailed)
    else if v[0] == ')' || v[0] == ';' || v[0] == '\n' || v[0] == '\r' then
      Scan(v[1..], f, accept)
    else
      Scan(v[1..], if f.inRow then Write(f, v[0]) else f, accept)
  }

  // What a line means: nothing without VALUES, else the rows after the first VALUES.
  function Meaning(line: string, accept: seq<string> -> bool): Scanned {
    var idx := Index(line, "VALUES");
    if idx < 0 then Scanned([], Parsed) else Scan(line[idx + 6..], OUTSIDE, accept)
  }

  method ParseInsertValuesLine(line: string, accept: seq<string> -> bool) returns (r: Scanned)
    ensures r == Meaning(line, accept)
  {
    hide Index;
    var idx := Index(line, "VALUES");
    if idx < 0 {
      return Scanned([], Parsed);
    }
    var values := line[idx + 6..];
    var rows: seq<seq<string>> := [];
    var f := OUTSIDE;
    var i := 0;
    while i < |values|
      invariant 0 <= i <= |values|
      invariant Scan(values, OUTSIDE, accept)
             == Scanned(rows + Scan(values[i..], f, accept).rows, Scan(values[i..], f, accept).status)
    {
      var ch := values[i];
      ghost var ahead := values[i..];
      assert ahead[0] == ch && ahead[1..] == values[i + 1..];
      assert i + 1 < |values| ==> ahead[1] == values[i + 1] && ahead[2..] == values[i + 2..];
      if f.inQuote {
        if ch == '\\' {
          if i + 1 < |values| {
            i := i + 1;
            f := Write(f, values[i]);
          }
        } else if ch == '\'' {
          if i + 1 < |values| && values[i + 1] == '\'' {
            i := i + 1;
            f := Write(f, '\'');
          } else {
            f := f.(inQuote := false);
          }
        } else {
          f := Write(f, ch);
        }
      } else if ch == '(' {
        f := if f.inRow then Write(f, ch) else Flags([], "", true, false, false);
      } else if ch == '\'' {
        f := f.(inQuote := true, quoted := true);
      } else if ch == ',' {
        f := if f.inRow then FlushField(f) else f;
      } else if ch == ')' {
        if f.inRow {
          f := FlushField(f);
          if !accept(f.fields) {
            return Scanned(rows + [f.fields], CallbackFailed);
          }
          ghost var later := Scan(values[i + 1..], f.(fields := [], inRow := false), accept);
          assert rows + ([f.fields] + later.rows) == (rows + [f.fields]) + later.rows;
          rows := rows + [f.fields];
          f := f.(fields := [], inRow := false);
        }
      } else if ch != ';' && ch != '\n' && ch != '\r' && f.inRow {
        f := Write(f, ch);
      }
      i := i + 1;
    }
    r := Scanned(rows, if f.inQuote || f.inRow then Unterminated else Parsed);
  }

  // ----- the printer ---------------------------------------------------------------------

  // How one character stands inside quotes: as it is, behind a backslash, or, for a
  // quote, doubled.
  datatype Char = Raw(c: char) | Escaped(c: char) | DoubledQuote

  datatype Field = Quoted(chars: seq<Char>) | Plain(token: string)

  function PrintChar(c: Char): string {
    match c
    case Raw(ch) => [ch]
    case Escaped(ch) => ['\\', ch]
    case DoubledQuote => ['\'', '\'']
  }

  function CharValue(c: Char): char {
    if c.DoubledQuote? then '\'' else c.c
  }

  function PrintChars(cs: seq<Char>): string {
    if cs == [] then "" else PrintChar(cs[0]) + PrintChars(cs[1..])
  }

  function CharValues(cs: seq<Char>): (v: string)
    ensures |v| == |cs| && forall i :: 0 <= i < |cs| ==> v[i] == CharValue(cs[i])
  {
    seq(|cs|, i requires 0 <= i < |cs| => CharValue(cs[i]))
  }

  predicate CharsOk(cs: seq<Char>) {
    forall i :: 0 <= i < |cs| && cs[i].Raw? ==> cs[i].c != '\\' && cs[i].c != '\''
  }

  predicate TokenOk(t: string) {
    forall i :: 0 <= i < |t| ==> TokenChar(t[i])
  }

  predicate TokenChar(c: char) {
    c != '\'' && c != ',' && c != ')' && c != ';' && c != '\n' && c != '\r'
  }

  predicate FieldOk(f: Field) {
    match f
    case Quoted(cs) => CharsOk(cs)
    case Plain(t) => TokenOk(t)
  }

  function PrintField(f: Field): string {
    match f
    case Quoted(cs) => "'" + PrintChars(cs) + "'"
    case Plain(t) => t
  }

  function FieldValue(f: Field): string {
    match f
    case Quoted(cs) => CharValues(cs)
    case Plain(t) => TrimSpace(t)
  }

  function FieldValues(row: seq<Field>): seq<string> {
    if row == [] then [] else [FieldValue(row[0])] + FieldValues(row[1..])
  }

  // The fields of a row with commas between them, and the closing parenthesis.
  function PrintFields(row: seq<Field>): string
    requires row != []
  {
    PrintField(row[0]) + if |row| == 1 then ")" else "," + PrintFields(row[1..])
  }

  predicate RowOk(row: seq<Field>) {
    row != [] && forall i :: 0 <= i < |row| ==> FieldOk(row[i])
  }

  predicate RowsOk(rows: seq<seq<Field>>) {
    forall i :: 0 <= i < |rows| ==> RowOk(rows[i])
  }

  function PrintRows(rows: seq<seq<Field>>): string
    requires RowsOk(rows)
  {
    if rows == [] then "" else "(" + PrintFields(rows[0]) + (if |rows| == 1 then "" else ",") + PrintRows(rows[1..])
  }

  function RowValues(rows: seq<seq<Field>>): seq<seq<string>> {
    if rows == [] then [] else [FieldValues(rows[0])] + RowValues(rows[1..])
  }

  // The rows a callback sees: all of them, or those up to the first one it refuses.
  function Seen(rows: seq<seq<string>>, accept: seq<string> -> bool): Scanned {
    if rows == [] then Scanned([], Parsed)
    else if accept(rows[0]) then Deliver(rows[0], Seen(rows[1..], accept))
    else Scanned([rows[0]], CallbackFailed)
  }

  // ----- the scanner inverts the printer ---------------------------------------------------

  // rest does not start with a quote, so a quote before it closes the string.
  predicate ClosesBefore(rest: string) {
    rest == "" || rest[0] != '\''
  }

  lemma ScanChar(c: Char, more: string, f: Flags, accept: seq<string> -> bool)
    requires CharsOk([c]) && f.inQuote
    ensures Scan(PrintChar(c) + more, f, accept) == Scan(more, Write(f, CharValue(c)), accept)
  {
    assert c == [c][0];
    var v := PrintChar(c) + more;
    if c.Raw? {
      assert v[1..] == more;
    } else {
      assert v[2..] == more;
    }
  }

  lemma {:induction false} ScanChars(cs: seq<Char>, rest: string, f: Flags, accept: seq<string> -> bool)
    requires CharsOk(cs) && f.inQuote && ClosesBefore(rest)
    ensures Scan(PrintChars(cs) + ("'" + rest), f, accept)
         == Scan(rest, f.(field := f.field + CharValues(cs), inQuote := false), accept)
    decreases cs
  {
    var tail := "'" + rest;
    if cs == [] {
      assert PrintChars(cs) + tail == tail && tail[1..] == rest;
      assert f.field + CharValues(cs) == f.field;
    } else {
      hide Scan, PrintChar, CharValue, ClosesBefore;
      var g := Write(f, CharValue(cs[0]));
      assert PrintChars(cs) + tail == PrintChar(cs[0]) + (PrintChars(cs[1..]) + tail);
      ScanChar(cs[0], PrintChars(cs[1..]) + tail, f, accept);
      ScanChars(cs[1..], rest, g, accept);
      assert g.field + CharValues(cs[1..]) == f.field + CharValues(cs);
    }
  }

  lemma {:induction false} ScanToken(t: string, rest: string, f: Flags, accept: seq<string> -> bool)
    requires (forall i :: 0 <= i < |t| ==> TokenChar(t[i])) && f.inRow && !f.inQuote
    ensures Scan(t + rest, f, accept) == Scan(rest, f.(field := f.field + t), accept)
    decreases t
  {
    if t == "" {
      assert t + rest == rest && f.field + t == f.field;
    } else {
      assert (t + rest)[1..] == t[1..] + rest;
      ScanToken(t[1..], rest, Write(f, t[0]), accept);
      assert f.field + t == (f.field + [t[0]]) + t[1..];
    }
  }

  // A printed field, up to the comma or parenthesis after it, becomes its value.
  lemma ScanField(fd: Field, rest: string, f: Flags, accept: seq<string> -> bool) returns (g: Flags)
    requires FieldOk(fd) && f.inRow && !f.inQuote && !f.quoted && f.field == "" && rest != "" && ClosesBefore(rest)
    ensures Scan(PrintField(fd) + rest, f, accept) == Scan(rest, g, accept)
    ensures g.inRow && !g.inQuote && FlushField(g) == f.(fields := f.fields + [FieldValue(fd)])
  {
    match fd
    case Quoted(cs) =>
      assert PrintField(fd) + rest == "'" + (PrintChars(cs) + ("'" + rest));
      assert ("'" + (PrintChars(cs) + ("'" + rest)))[1..] == PrintChars(cs) + ("'" + rest);
      ScanChars(cs, rest, f.(inQuote := true, quoted := true), accept);
      assert f.field + CharValues(cs) == CharValues(cs);
      g := f.(field := CharValues(cs), quoted := true);
    case Plain(t) =>
      ScanToken(t, rest, f, accept);
      assert f.field + t == t;
      g := f.(field := t);
  }

  // The end of a row whose last field is still open.
  function EndOfRow(all: seq<string>, rest: string, accept: seq<string> -> bool): Scanned {
    if accept(all) then Deliver(all, Scan(rest, OUTSIDE, accept)) else Scanned([all], CallbackFailed)
  }

  lemma ScanClose(rest: string, g: Flags, accept: seq<string> -> bool)
    requires g.inRow && !g.inQuote
    ensures Scan(")" + rest, g, accept) == EndOfRow(FlushField(g).fields, rest, accept)
  {
    assert (")" + rest)[1..] == rest;
  }

  lemma ScanComma(rest: string, g: Flags, accept: seq<string> -> bool)
    requires g.inRow && !g.inQuote
    ensures Scan("," + rest, g, accept) == Scan(rest, FlushField(g), accept)
  {
    assert ("," + rest)[1..] == rest;
  }

  lemma PrintFieldsSplits(row: seq<Field>, rest: string)
    requires |row| > 1
    ensures PrintFields(row) + rest == PrintField(row[0]) + ("," + (PrintFields(row[1..]) + rest))
  {
    var a, b := PrintField(row[0]), PrintFields(row[1..]);
    assert PrintFields(row) == a + ("," + b);
    Assoc(a, "," + b, rest);
    Assoc(",", b, rest);
  }

  lemma {:induction false} ScanFields(row: seq<Field>, rest: string, f: Flags, accept: seq<string> -> bool)
    requires RowOk(row) && f.inRow && !f.inQuote && !f.quoted && f.field == ""
    ensures Scan(PrintFields(row) + rest, f, accept) == EndOfRow(f.fields + FieldValues(row), rest, accept)
    decreases row
  {
    if |row| == 1 {
      Assoc(PrintField(row[0]), ")", rest);
      var g := ScanField(row[0], ")" + rest, f, accept);
      ScanClose(rest, g, accept);
      assert FieldValues(row) == [FieldValue(row[0])];
    } else {
      PrintFieldsSplits(row, rest);
      var more := PrintFields(row[1..]) + rest;
      var g := ScanField(row[0], "," + more, f, accept);
      ScanComma(more, g, accept);
      ScanFields(row[1..], rest, FlushField(g), accept);
      Assoc(f.fields, [FieldValue(row[0])], FieldValues(row[1..]));
    }
  }

  // Text outside rows is skipped, as long as it opens neither a row nor a quote.
  predicate Outside(text: string) {
    forall i :: 0 <= i < |text| ==> text[i] != '(' && text[i] != '\''
  }

  lemma {:induction false} ScanOutside(text: string, rest: string, accept: seq<string> -> bool)
    requires Outside(text)
    ensures Scan(text + rest, OUTSIDE, accept) == Scan(rest, OUTSIDE, accept)
    decreases text
  {
    if text == "" {
      assert text + rest == rest;
    } else {
      assert (text + rest)[1..] == text[1..] + rest;
      ScanOutside(text[1..], rest, accept);
    }
  }

  lemma ScanOpen(rest: string, accept: seq<string> -> bool)
    ensures Scan("(" + rest, OUTSIDE, accept) == Scan(rest, Flags([], "", true, false, false), accept)
  {
    assert ("(" + rest)[1..] == rest;
  }

  lemma PrintRowsSplits(rows: seq<seq<Field>>, tail: string)
    requires rows != [] && RowsOk(rows)
    ensures var sep := if |rows| == 1 then "" else ",";
            PrintRows(rows) + tail == "(" + (PrintFields(rows[0]) + (sep + (PrintRows(rows[1..]) + tail)))
  {
    var sep := if |rows| == 1 then "" else ",";
    var a, b := PrintFields(rows[0]), PrintRows(rows[1..]);
    assert PrintRows(rows) == "(" + a + sep + b;
    Assoc("(" + a + sep, b, tail);
    Assoc("(" + a, sep, b + tail);
    Assoc("(", a, sep + (b + tail));
  }

  // The rows a callback sees, and what comes after them if it refuses none.
  function SeenThen(rows: seq<seq<string>>, accept: seq<string> -> bool, after: Scanned): Scanned {
    if rows == [] then after
    else if accept(rows[0]) then Deliver(rows[0], SeenThen(rows[1..], accept, after))
    else Scanned([rows[0]], CallbackFailed)
  }

  lemma {:induction false} SeenIsThenParsed(rows: seq<seq<string>>, accept: seq<string> -> bool)
    ensures Seen(rows, accept) == SeenThen(rows, accept, Scanned([], Parsed))
  {
    if rows != [] {
      SeenIsThenParsed(rows[1..], accept);
    }
  }

  // Printed rows are read, and the scan goes on behind them.
  lemma {:induction false} ScanRows(rows: seq<seq<Field>>, rest: string, accept: seq<string> -> bool)
    requires RowsOk(rows)
    ensures Scan(PrintRows(rows) + rest, OUTSIDE, accept)
         == SeenThen(RowValues(rows), accept, Scan(rest, OUTSIDE, accept))
    decreases rows
  {
    if rows == [] {
      assert PrintRows(rows) + rest == rest;
    } else {
      var sep := if |rows| == 1 then "" else ",";
      var more := PrintRows(rows[1..]) + rest;
      var inside := Flags([], "", true, false, false);
      PrintRowsSplits(rows, rest);
      ScanOpen(PrintFields(rows[0]) + (sep + more), accept);
      ScanFields(rows[0], sep + more, inside, accept);
      assert inside.fields + FieldValues(rows[0]) == FieldValues(rows[0]);
      ScanOutside(sep, more, accept);
      ScanRows(rows[1..], rest, accept);
      assert RowValues(rows)[1..] == RowValues(rows[1..]);
    }
  }

  // The first VALUES of a line is the one after a head that does not contain it: VALUES
  // cannot overlap another VALUES.
  lemma FirstValues(head: string, after: string)
    requires Index(head, "VALUES") == -1
    ensures Index(head + "VALUES" + after, "VALUES") == |head|
  {
    var line := head + "VALUES" + after;
    assert line[|head|..] == "VALUES" + after;
    assert HasPrefix(line[|head|..], "VALUES");
    forall r | 0 <= r < |head|
      ensures !HasPrefix(line[r..], "VALUES")
    {
      NoEarlierValues(head, after, r);
    }
  }

  lemma NoEarlierValues(head: string, after: string, r: nat)
    requires Index(head, "VALUES") == -1 && r < |head|
    ensures !HasPrefix((head + "VALUES" + after)[r..], "VALUES")
  {
    var line, p := head + "VALUES" + after, "VALUES";
    if r + 6 <= |head| {
      assert line[r..][..6] == head[r..][..6];
      assert !HasPrefix(head[r..], p);
    } else {
      var k := |head| - r;
      assert line[r..][..6][k] == line[|head|] == 'V' && p[k] != 'V';
    }
  }

  // Reading inverts printing: every row of every printed line comes back field for field
  // and in order, until the callback refuses one.
  lemma ReadsWhatWasPrinted(head: string, rows: seq<seq<Field>>, tail: string, accept: seq<string> -> bool)
    requires Index(head, "VALUES") == -1 && RowsOk(rows) && Outside(tail)
    ensures Meaning(head + "VALUES" + (" " + PrintRows(rows) + tail), accept) == Seen(RowValues(rows), accept)
  {
    hide Scan, Outside, PrintRows, Index, RowsOk;
    var after := " " + PrintRows(rows) + tail;
    var line := head + "VALUES" + after;
    FirstValues(head, after);
    assert line[|head| + 6..] == after;
    assert after == " " + (PrintRows(rows) + tail);
    ScanOutside(" ", PrintRows(rows) + tail, accept);
    ScanRows(rows, tail, accept);
    ScanOutside(tail, "", accept);
    assert tail + "" == tail;
    SeenIsThenParsed(RowValues(rows), accept);
    NothingLeft(accept);
  }

  lemma NothingLeft(accept: seq<string> -> bool)
    ensures Scan("", OUTSIDE, accept) == Scanned([], Parsed)
  {
  }

  lemma {:induction false} SeenAll(rows: seq<seq<string>>, accept: seq<string> -> bool)
    requires forall i :: 0 <= i < |rows| ==> accept(rows[i])
    ensures Seen(rows, accept) == Scanned(rows, Parsed)
  {
    if rows != [] {
      SeenAll(rows[1..], accept);
      assert [rows[0]] + rows[1..] == rows;
    }
  }

  // If it refuses one, nothing after that row is delivered.
  lemma {:induction false} SeenUpTo(rows: seq<seq<string>>, accept: seq<string> -> bool, k: nat)
    requires k < |rows| && !accept(rows[k]) && forall i :: 0 <= i < k ==> accept(rows[i])
    ensures Seen(rows, accept) == Scanned(rows[..k + 1], CallbackFailed)
  {
    if k > 0 {
      SeenUpTo(rows[1..], accept, k - 1);
      assert [rows[0]] + rows[1..][..k] == rows[..k + 1];
    }
  }

  // A string in quotes with its own quotes doubled.
  function DoubledChars(s: string): (cs: seq<Char>)
    ensures |cs| == |s| && forall i :: 0 <= i < |s| ==> cs[i] == if s[i] == '\'' then DoubledQuote else Raw(s[i])
  {
    seq(|s|, i requires 0 <= i < |s| => if s[i] == '\'' then DoubledQuote else Raw(s[i]))
  }

  function Doubling(c: char): string {
    if c == '\'' then "''" else [c]
  }

  lemma {:induction false} DoubledText(s: string)
    ensures PrintChars(DoubledChars(s)) == Flatten(Map(Doubling, s))
  {
    if s != "" {
      DoubledText(s[1..]);
      assert DoubledChars(s)[1..] == DoubledChars(s[1..]) && Map(Doubling, s)[1..] == Map(Doubling, s[1..]);
    }
  }

  // Doubled quotes are read back as one each, in a string without backslashes.
  lemma DoubledReadsBack(head: string, s: string, tail: string, accept: seq<string> -> bool)
    requires Index(head, "VALUES") == -1 && Outside(tail) && '\\' !in s && forall row :: accept(row)
    ensures Meaning(head + "VALUES" + (" " + ("('" + (Flatten(Map(Doubling, s)) + "')")) + tail), accept)
         == Scanned([[s]], Parsed)
  {
    hide Meaning, Outside, Index, Scan;
    var field := Quoted(DoubledChars(s));
    var rows := [[field]];
    assert RowsOk(rows);
    DoubledText(s);
    assert PrintRows(rows) == "('" + (Flatten(Map(Doubling, s)) + "')") by {
      assert PrintFields([field]) == ("'" + PrintChars(DoubledChars(s)) + "'") + ")";
      assert rows[1..] == [] && PrintRows(rows) == "(" + PrintFields([field]) + "" + "";
    }
    ReadsWhatWasPrinted(head, rows, tail, accept);
    assert CharValues(DoubledChars(s)) == s;
    assert FieldValues([field]) == [s] && RowValues(rows) == [[s]];
    SeenAll([[s]], accept);
  }

  // ----- lines that break off ---------------------------------------------------------------

  // An open row: some fields with a comma behind each, and a last field without its end.
  function PrintOpen(row: seq<Field>, last: Field): string {
    if row == [] then
      match last
      case Quoted(cs) => "'" + PrintChars(cs)
      case Plain(t) => t
    else PrintField(row[0]) + ("," + PrintOpen(row[1..], last))
  }

  ghost predicate OpenOk(row: seq<Field>, last: Field) {
    FieldOk(last) && forall i :: 0 <= i < |row| ==> FieldOk(row[i])
  }

  lemma {:induction false} ScanOpenChars(cs: seq<Char>, f: Flags, accept: seq<string> -> bool)
    requires CharsOk(cs) && f.inQuote
    ensures Scan(PrintChars(cs), f, accept) == Scanned([], Unterminated)
    decreases cs
  {
    if cs != [] {
      hide Scan, PrintChar, CharValue;
      ScanChar(cs[0], PrintChars(cs[1..]), f, accept);
      ScanOpenChars(cs[1..], Write(f, CharValue(cs[0])), accept);
    }
  }

  lemma {:induction false} ScanOpenRow(row: seq<Field>, last: Field, f: Flags, accept: seq<string> -> bool)
    requires OpenOk(row, last) && f.inRow && !f.inQuote && !f.quoted && f.field == ""
    ensures Scan(PrintOpen(row, last), f, accept) == Scanned([], Unterminated)
    decreases row
  {
    if row != [] {
      var more := PrintOpen(row[1..], last);
      var g := ScanField(row[0], "," + more, f, accept);
      ScanComma(more, g, accept);
      ScanOpenRow(row[1..], last, FlushField(g), accept);
    } else if last.Quoted? {
      assert PrintOpen(row, last)[1..] == PrintChars(last.chars);
      ScanOpenChars(last.chars, f.(inQuote := true, quoted := true), accept);
    } else {
      ScanToken(last.token, "", f, accept);
      assert last.token + "" == last.token;
    }
  }

  // A line that breaks off inside a row or a quote is an error after the rows before it,
  // unless the callback refused one of those.
  lemma BrokenLine(head: string, rows: seq<seq<Field>>, tail: string, row: seq<Field>, last: Field,
          accept: seq<string> -> bool)
    requires Index(head, "VALUES") == -1 && RowsOk(rows) && Outside(tail) && OpenOk(row, last)
    ensures Meaning(head + "VALUES" + (" " + PrintRows(rows) + (tail + ("(" + PrintOpen(row, last)))), accept)
         == SeenThen(RowValues(rows), accept, Scanned([], Unterminated))
  {
    hide Scan, Outside, PrintRows, Index, RowsOk, PrintOpen, OpenOk;
    var open := "(" + PrintOpen(row, last);
    var after := " " + PrintRows(rows) + (tail + open);
    var line := head + "VALUES" + after;
    FirstValues(head, after);
    assert line[|head| + 6..] == after;
    assert after == " " + (PrintRows(rows) + (tail + open));
    ScanOutside(" ", PrintRows(rows) + (tail + open), accept);
    ScanRows(rows, tail + open, accept);
    ScanOutside(tail, open, accept);
    ScanOpen(PrintOpen(row, last), accept);
    ScanOpenRow(row, last, Flags([], "", true, false, false), accept);
  }

  // ----- the escapes of mysql_real_escape_string ---------------------------------------------

  predicate Named(c: char) {
    c == '\0' || c == '\n' || c == '\r' || c == '\U{1A}'
  }

  // The four control characters are written as a backslash and a letter or digit.
  function DumpChar(c: char): Char {
    if c == '\0' then Escaped('0')
    else if c == '\n' then Escaped('n')
    else if c == '\r' then Escaped('r')
    else if c == '\U{1A}' then Escaped('Z')
    else if c == '\\' || c == '\'' || c == '"' then Escaped(c)
    else Raw(c)
  }

  function DumpChars(s: string): (cs: seq<Char>)
    ensures |cs| == |s| && forall i :: 0 <= i < |s| ==> cs[i] == DumpChar(s[i])
    ensures CharsOk(cs)
  {
    seq(|s|, i requires 0 <= i < |s| => DumpChar(s[i]))
  }

  predicate Unnamed(s: string) {
    forall i :: 0 <= i < |s| ==> !Named(s[i])
  }

  // Rows of strings as mysqldump writes them.
  function DumpRow(row: seq<string>): (fields: seq<Field>)
    ensures |fields| == |row| && forall i :: 0 <= i < |row| ==> fields[i] == Quoted(DumpChars(row[i]))
  {
    seq(|row|, i requires 0 <= i < |row| => Quoted(DumpChars(row[i])))
  }

  function DumpRows(rows: seq<seq<string>>): (dump: seq<seq<Field>>)
    requires forall i :: 0 <= i < |rows| ==> rows[i] != []
    ensures |dump| == |rows| && RowsOk(dump) && forall i :: 0 <= i < |rows| ==> dump[i] == DumpRow(rows[i])
  {
    seq(|rows|, i requires 0 <= i < |rows| => DumpRow(rows[i]))
  }

  lemma DumpedString(s: string)
    ensures FieldValue(Quoted(DumpChars(s))) == s <==> Unnamed(s)
  {
    var v := FieldValue(Quoted(DumpChars(s)));
    assert forall i :: 0 <= i < |s| ==> v[i] == CharValue(DumpChar(s[i]));
    if i :| 0 <= i < |s| && Named(s[i]) {
      assert v[i] != s[i];
    }
  }

  lemma {:induction false} DumpedRow(row: seq<string>)
    ensures FieldValues(DumpRow(row)) == row <==> forall i :: 0 <= i < |row| ==> Unnamed(row[i])
  {
    if row != [] {
      DumpedString(row[0]);
      DumpedRow(row[1..]);
      assert DumpRow(row)[1..] == DumpRow(row[1..]);
      var first, rest := FieldValue(Quoted(DumpChars(row[0]))), FieldValues(DumpRow(row[1..]));
      assert [first] + rest == row <==> first == row[0] && rest == row[1..] by {
        assert row == [row[0]] + row[1..];
      }
    }
  }

  ghost predicate AllUnnamed(rows: seq<seq<string>>) {
    forall i, j :: 0 <= i < |rows| && 0 <= j < |rows[i]| ==> Unnamed(rows[i][j])
  }

  lemma {:induction false} DumpedRows(rows: seq<seq<string>>)
    requires forall i :: 0 <= i < |rows| ==> rows[i] != []
    ensures RowValues(DumpRows(rows)) == rows <==> AllUnnamed(rows)
  {
    hide Unnamed, FieldValues, DumpRow;
    if rows != [] {
      DumpedRow(rows[0]);
      DumpedRows(rows[1..]);
      assert DumpRows(rows)[1..] == DumpRows(rows[1..]);
      var first, rest := FieldValues(DumpRow(rows[0])), RowValues(DumpRows(rows[1..]));
      assert [first] + rest == rows <==> first == rows[0] && rest == rows[1..] by {
        assert rows == [rows[0]] + rows[1..];
      }
      assert forall i :: 0 < i < |rows| ==> rows[i] == rows[1..][i - 1];
    }
  }

  // The scanner drops the backslash and keeps the letter, so a dump is read back exactly
  // when no string in it holds a control character that has such a name.
  lemma DumpReadsBack(head: string, rows: seq<seq<string>>, tail: string, accept: seq<string> -> bool)
    requires Index(head, "VALUES") == -1 && Outside(tail)
    requires forall i :: 0 <= i < |rows| ==> rows[i] != []
    requires forall row :: accept(row)
    ensures Meaning(head + "VALUES" + (" " + PrintRows(DumpRows(rows)) + tail), accept) == Scanned(rows, Parsed)
       <==> AllUnnamed(rows)
  {
    ReadsWhatWasPrinted(head, DumpRows(rows), tail, accept);
    SeenAll(RowValues(DumpRows(rows)), accept);
    DumpedRows(rows);
  }
}
