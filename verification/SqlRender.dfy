/**
 The queries of the DB operational snapshot (internal/jetmoncapacity/db_operational.go):
 rendering, and what the statement splitter makes of the result.
 */
module SqlRender {
  import opened Seqs
  import opened Text
  import opened SqlSplit
  import opened SqlQuote

  // ----- rendering ----------------------------------------------------------------------------------

  const STATUS_VARIABLES := [
    "Questions", "Queries", "Com_select", "Com_insert", "Com_update", "Com_delete", "Com_replace",
    "Innodb_rows_read", "Innodb_rows_inserted", "Innodb_rows_updated", "Innodb_rows_deleted",
    "Bytes_received", "Bytes_sent"]

  const STATUS_HEAD := "SHOW GLOBAL STATUS WHERE Variable_name IN ("
  const SELECT_NAME := "SELECT TABLE_NAME FROM "
  const FROM_TABLES := "information_schema.TABLES "
  const WHERE_SCHEMA := "WHERE TABLE_SCHEMA = DATABASE() AND "
  const NO_TABLES := SELECT_NAME + FROM_TABLES + WHERE_SCHEMA + "1 = 0"
  const LIST_HEAD := SELECT_NAME + FROM_TABLES + WHERE_SCHEMA + "TABLE_NAME IN ("
  const LIST_TAIL := ") ORDER BY TABLE_NAME"
  const COUNT_MIDDLE := " AS table_name, COUNT(*) AS row_count FROM "
  const UNION := " UNION ALL "

  function CountSelect(table: string): string {
    "SELECT " + (QuoteSQLString(table) + (COUNT_MIDDLE + QuoteSQLIdentifier(table)))
  }

  function QuotedStrings(values: seq<string>): seq<string> {
    Map(QuoteSQLString, values)
  }

  function StatusBody(): string {
    STATUS_HEAD + (Join(QuotedStrings(STATUS_VARIABLES), ",") + ")")
  }

  function ListBody(tables: seq<string>): string {
    if tables == [] then NO_TABLES else LIST_HEAD + (Join(QuotedStrings(tables), ",") + LIST_TAIL)
  }

  function CountBody(tables: seq<string>): string {
    Join(Map(CountSelect, tables), UNION)
  }

  method QuoteAll(values: seq<string>) returns (quoted: seq<string>)
    ensures quoted == QuotedStrings(values)
  {
    quoted := [];
    for i := 0 to |values|
      invariant quoted == QuotedStrings(values)[..i]
    {
      quoted := quoted + [QuoteSQLString(values[i])];
    }
  }

  method RenderStatusSQL() returns (sql: string)
    ensures sql == StatusBody() + ";"
  {
    var quoted := QuoteAll(STATUS_VARIABLES);
    sql := STATUS_HEAD + (Join(quoted, ",") + ")") + ";";
  }

  method RenderTableListSQL(tables: seq<string>) returns (sql: string)
    ensures sql == ListBody(tables) + ";"
  {
    if |tables| == 0 {
      return NO_TABLES + ";";
    }
    var quoted := QuoteAll(tables);
    sql := LIST_HEAD + (Join(quoted, ",") + LIST_TAIL) + ";";
  }

  method RenderRowCountSQL(tables: seq<string>) returns (sql: string)
    ensures sql == CountBody(tables) + ";"
  {
    var selects := [];
    for i := 0 to |tables|
      invariant selects == Map(CountSelect, tables)[..i]
    {
      selects := selects + [CountSelect(tables[i])];
    }
    assert selects == Map(CountSelect, tables);
    sql := Join(selects, UNION) + ";";
  }

  // The texts, for up to two tables.
  lemma RenderedTexts()
    ensures ListBody([])
         == "SELECT TABLE_NAME FROM " + "information_schema.TABLES " + "WHERE TABLE_SCHEMA = DATABASE() AND " + "1 = 0"
    ensures ListBody(["a", "b"])
         == "SELECT TABLE_NAME FROM " + "information_schema.TABLES " + "WHERE TABLE_SCHEMA = DATABASE() AND "
            + "TABLE_NAME IN (" + ("'a','b'" + ") ORDER BY TABLE_NAME")
    ensures CountBody(["a", "b"])
         == "SELECT " + ("'a'" + (" AS table_name, COUNT(*) AS row_count FROM " + "`a`")) + " UNION ALL "
            + ("SELECT " + ("'b'" + (" AS table_name, COUNT(*) AS row_count FROM " + "`b`")))
  {
    hide Join, QuotedStrings, Doubled;
    QuotedLetter("a");
    QuotedLetter("b");
    PairTexts();
  }

  lemma QuotedLetter(v: string)
    requires |v| == 1 && v[0] != '\'' && v[0] != '`'
    ensures QuoteSQLString(v) == "'" + v + "'" && QuoteSQLIdentifier(v) == "`" + v + "`"
  {
    assert v[1..] == "" && Doubled("", '\'') == "" && Doubled("", '`') == "";
  }

  lemma PairTexts()
    requires QuoteSQLString("a") == "'a'" && QuoteSQLString("b") == "'b'"
    requires QuoteSQLIdentifier("a") == "`a`" && QuoteSQLIdentifier("b") == "`b`"
    ensures Join(QuotedStrings(["a", "b"]), ",") == "'a','b'"
    ensures CountBody(["a", "b"]) == CountSelect("a") + UNION + CountSelect("b")
  {
    hide QuoteSQLString, QuoteSQLIdentifier, CountSelect;
    var q, s := ["'a'", "'b'"], [CountSelect("a"), CountSelect("b")];
    assert QuotedStrings(["a", "b"]) == q && q[1..] == ["'b'"];
    assert Map(CountSelect, ["a", "b"]) == s && s[1..] == [CountSelect("b")];
  }

  // ----- each query is one statement ------------------------------------------------------------------

  predicate NamesPaired(names: seq<string>) {
    forall i :: 0 <= i < |names| ==> BackslashesPaired(names[i])
  }

  lemma {:induction false} NoBackslashesPaired(v: string)
    requires '\\' !in v
    ensures BackslashesPaired(v)
  {
    if v != "" {
      NoBackslashesPaired(v[1..]);
    }
  }

  // ----- one statement, if all names are paired -------------------------------------------------------

  // Parts that carry in front of the separator, and in front of what follows the last,
  // carry when they are joined.
  lemma {:induction false} JoinCarries(parts: seq<string>, sep: string, rest: string)
    requires forall i, t :: 0 <= i < |parts| && NoQuoteAhead(t) ==> Carries(parts[i], t)
    requires sep != "" && NoQuoteAhead(sep) && NoQuoteAhead(rest) && IsPlain(sep)
    ensures Carries(Join(parts, sep), rest)
    decreases parts
  {
    if parts == [] {
      assert "" + rest == rest;
    } else if |parts| > 1 {
      var more := Join(parts[1..], sep);
      JoinCarries(parts[1..], sep, rest);
      PlainCarries(sep, more + rest);
      CarriesCompose(sep, more, rest);
      Assoc(sep, more, rest);
      assert NoQuoteAhead((sep + more) + rest);
      CarriesCompose(parts[0], sep + more, rest);
      Assoc(parts[0], sep, more);
    }
  }

  lemma NamesJoinCarry(names: seq<string>, rest: string)
    requires NamesPaired(names) && NoQuoteAhead(rest)
    ensures Carries(Join(QuotedStrings(names), ","), rest)
  {
    forall i, t | 0 <= i < |names| && NoQuoteAhead(t)
      ensures Carries(QuotedStrings(names)[i], t)
    {
      StringCarries(names[i], t);
    }
    JoinCarries(QuotedStrings(names), ",", rest);
  }

  // head ( joined names ) tail is a single statement.
  lemma ListIsOneStatement(head: string, names: seq<string>, tail: string)
    requires IsPlain(head) && IsPlain(tail) && NamesPaired(names) && NoQuoteAhead(tail)
    requires head != "" && Visible(head[0]) && tail != "" && Visible(tail[|tail| - 1])
    ensures var body := head + (Join(QuotedStrings(names), ",") + tail); Split(body + ";") == [body]
  {
    var joined := Join(QuotedStrings(names), ",");
    PlainCarries(tail, ";");
    NamesJoinCarry(names, tail + ";");
    CarriesCompose(joined, tail, ";");
    PlainCarries(head, (joined + tail) + ";");
    CarriesCompose(head, joined + tail, ";");
    CarriedIsOneStatement(head + (joined + tail));
    TrimVisible(head + (joined + tail));
  }

  lemma {:induction false} StatusNamesPaired()
    ensures NamesPaired(STATUS_VARIABLES)
  {
    forall i | 0 <= i < |STATUS_VARIABLES|
      ensures BackslashesPaired(STATUS_VARIABLES[i])
    {
      NoBackslashesPaired(STATUS_VARIABLES[i]);
    }
  }

  lemma StatusEnds()
    ensures IsPlain(STATUS_HEAD) && STATUS_HEAD != "" && Visible(STATUS_HEAD[0])
    ensures IsPlain(")") && Visible(")"[0]) && NoQuoteAhead(")")
  {
    assert STATUS_HEAD[0] == 'S' && ")"[0] == ')';
  }

  lemma StatusIsOneStatement()
    ensures Split(StatusBody() + ";") == [StatusBody()]
  {
    hide IsPlain, Visible, NamesPaired, SplitFrom, Join;
    StatusNamesPaired();
    StatusEnds();
    ListIsOneStatement(STATUS_HEAD, STATUS_VARIABLES, ")");
  }

  lemma PlainSum(a: string, b: string)
    requires IsPlain(a) && IsPlain(b)
    ensures IsPlain(a + b)
  {
  }

  // SELECT ... AND, then more.
  lemma SchemaHead(more: string)
    requires IsPlain(more)
    ensures var head := SELECT_NAME + FROM_TABLES + WHERE_SCHEMA + more;
            IsPlain(head) && head != "" && Visible(head[0])
            && (more != "" ==> head[|head| - 1] == more[|more| - 1])
  {
    assert IsPlain(SELECT_NAME) && SELECT_NAME != "" && Visible(SELECT_NAME[0]);
    assert IsPlain(FROM_TABLES);
    assert IsPlain(WHERE_SCHEMA);
    PlainSum(SELECT_NAME, FROM_TABLES);
    PlainSum(SELECT_NAME + FROM_TABLES, WHERE_SCHEMA);
    PlainSum(SELECT_NAME + FROM_TABLES + WHERE_SCHEMA, more);
  }

  lemma NoTablesIsOneStatement()
    ensures Split(NO_TABLES + ";") == [NO_TABLES]
  {
    SchemaHead("1 = 0");
    PlainCarries(NO_TABLES, ";");
    CarriedIsOneStatement(NO_TABLES);
    TrimVisible(NO_TABLES);
  }

  lemma PairedListIsOne(tables: seq<string>)
    requires NamesPaired(tables)
    ensures Split(ListBody(tables) + ";") == [ListBody(tables)]
  {
    if tables == [] {
      NoTablesIsOneStatement();
    } else {
      SchemaHead("TABLE_NAME IN (");
      ListIsOneStatement(LIST_HEAD, tables, LIST_TAIL);
    }
  }

  lemma CountSelectCarries(table: string, rest: string)
    requires BackslashesPaired(table)
    ensures Carries(CountSelect(table), rest)
  {
    hide Carries, QuoteSQLString, QuoteSQLIdentifier, BackslashesPaired;
    var id := QuoteSQLIdentifier(table);
    IdentifierCarries(table, rest);
    PlainCarries(COUNT_MIDDLE, id + rest);
    CarriesCompose(COUNT_MIDDLE, id, rest);
    StringCarries(table, (COUNT_MIDDLE + id) + rest);
    CarriesCompose(QuoteSQLString(table), COUNT_MIDDLE + id, rest);
    PlainCarries("SELECT ", (QuoteSQLString(table) + (COUNT_MIDDLE + id)) + rest);
    CarriesCompose("SELECT ", QuoteSQLString(table) + (COUNT_MIDDLE + id), rest);
  }

  lemma {:induction false} JoinVisible(parts: seq<string>, sep: string)
    requires parts != [] && forall i :: 0 <= i < |parts| ==>
               parts[i] != "" && Visible(parts[i][0]) && Visible(parts[i][|parts[i]| - 1])
    ensures var j := Join(parts, sep); j != "" && Visible(j[0]) && Visible(j[|j| - 1])
    decreases parts
  {
    if |parts| > 1 {
      JoinVisible(parts[1..], sep);
    }
  }

  lemma CountSelectVisible(table: string)
    ensures var s := CountSelect(table); s != "" && Visible(s[0]) && Visible(s[|s| - 1])
  {
    var q := QuoteSQLIdentifier(table);
    assert q[|q| - 1] == '`';
    assert CountSelect(table) == "SELECT " + (QuoteSQLString(table) + (COUNT_MIDDLE + q));
  }

  // With at least one table; without any, the query is a lone terminator and no statement.
  lemma PairedCountIsOne(tables: seq<string>)
    requires NamesPaired(tables)
    ensures Split(CountBody(tables) + ";") == if tables == [] then [] else [CountBody(tables)]
  {
    var parts := Map(CountSelect, tables);
    forall i, t | 0 <= i < |parts| && NoQuoteAhead(t)
      ensures Carries(parts[i], t)
    {
      CountSelectCarries(tables[i], t);
    }
    JoinCarries(parts, UNION, ";");
    CarriedIsOneStatement(CountBody(tables));
    if tables != [] {
      forall i | 0 <= i < |parts|
        ensures parts[i] != "" && Visible(parts[i][0]) && Visible(parts[i][|parts[i]| - 1])
      {
        CountSelectVisible(tables[i]);
      }
      JoinVisible(parts, UNION);
      TrimVisible(CountBody(tables));
    }
  }

  // ----- and only then --------------------------------------------------------------------------------

  // Characters between quoted parts that change no mode but the normal one.
  predicate IsGlue(x: string) {
    forall i :: 0 <= i < |x| ==>
      x[i] != '\'' && x[i] != '"' && x[i] != '`' && x[i] != '\\' && x[i] != '\n' && x[i] != '/'
  }

  // Nothing ahead that would pair with the last character before it.
  predicate Calm(s: string) {
    s == "" || (s[0] != '\'' && s[0] != '`' && s[0] != '/')
  }

  lemma {:induction false} GlueIsHopeless(x: string, after: string, k: nat)
    requires IsGlue(x) && Hopeless(after, k) && (after == "" || after[0] != '/')
    ensures Hopeless(x + after, |x| + k)
    decreases |x|
  {
    if x == "" {
      assert x + after == after;
    } else {
      GlueIsHopeless(x[1..], after, k);
      var s, t, n := x + after, x[1..] + after, |x| + k;
      assert s[1..] == t && s[0] == x[0] && (t != "" ==> t[0] != '/');
      forall m: Mode | m != Normal
        ensures ModeAt(s, n, m, false) != Some(Normal)
      {
        assert Advance(s, m) == (1, m);
        StepTo(s, n, m, 1, m, t);
      }
    }
  }

  // A part that the scanner never leaves in normal mode if it did not enter it so,
  ghost predicate Mute(part: string) {
    part != "" && part[0] != '/'
    && forall t, k: nat :: Hopeless(t, k) && Calm(t) ==> Hopeless(part + t, |part| + k)
  }

  // one that it leaves in normal mode if it entered it so,
  ghost predicate Smooth(part: string) {
    forall t :: NoQuoteAhead(t) ==> Carries(part, t)
  }

  // and one that it does not even leave so when it entered it so.
  ghost predicate Breaks(part: string) {
    forall t, k: nat :: Hopeless(t, k) && Calm(t) ==> ModeAt(part + t, |part| + k, Normal, false) != Some(Normal)
  }

  ghost predicate AllMute(parts: seq<string>) {
    forall i :: 0 <= i < |parts| ==> Mute(parts[i])
  }

  ghost predicate SmoothBelow(parts: seq<string>, i: nat)
    requires i <= |parts|
  {
    forall j :: 0 <= j < i ==> Smooth(parts[j])
  }

  lemma RestIsSo(parts: seq<string>, i: nat)
    requires i < |parts| && AllMute(parts) && SmoothBelow(parts, i)
    ensures AllMute(parts[1..]) && Mute(parts[0])
    ensures i > 0 ==> SmoothBelow(parts[1..], i - 1) && Smooth(parts[0])
  {
  }

  lemma {:induction false} JoinIsHopeless(parts: seq<string>, sep: string, rest: string, k: nat)
    requires parts != [] && AllMute(parts)
    requires IsGlue(sep) && sep != "" && Calm(sep) && Calm(rest) && Hopeless(rest, k)
    ensures Hopeless(Join(parts, sep) + rest, |Join(parts, sep)| + k) && Join(parts, sep) != ""
    ensures Join(parts, sep)[0] != '/'
    decreases |parts|
  {
    assert Mute(parts[0]);
    if |parts| > 1 {
      var more := Join(parts[1..], sep);
      JoinIsHopeless(parts[1..], sep, rest, k);
      GlueIsHopeless(sep, more + rest, |more| + k);
      JoinSplits(parts, sep, rest);
      SepIsCalm(sep, more + rest);
    }
  }

  lemma FirstBreaks(parts: seq<string>, sep: string, rest: string, k: nat)
    requires parts != [] && Breaks(parts[0]) && AllMute(parts)
    requires IsGlue(sep) && sep != "" && Calm(sep) && Calm(rest) && Hopeless(rest, k)
    ensures ModeAt(Join(parts, sep) + rest, |Join(parts, sep)| + k, Normal, false) != Some(Normal)
  {
    hide Hopeless, ModeAt, Mute, Breaks, IsGlue, Join, AllMute, Calm;
    JoinOne(parts, sep);
    if |parts| == 1 {
      BreaksBefore(parts[0], rest, k);
    } else {
      var more := Join(parts[1..], sep);
      RestIsSo(parts, 0);
      JoinIsHopeless(parts[1..], sep, rest, k);
      JoinSplits(parts, sep, rest);
      SepIsCalm(sep, more + rest);
      GlueIsHopeless(sep, more + rest, |more| + k);
      BreaksBefore(parts[0], sep + (more + rest), |sep| + (|more| + k));
    }
  }

  lemma JoinOne(parts: seq<string>, sep: string)
    ensures |parts| == 1 ==> Join(parts, sep) == parts[0]
  {
  }

  lemma LaterBreaks(parts: seq<string>, sep: string, rest: string, k: nat)
    requires |parts| > 1 && Smooth(parts[0]) && IsPlain(sep) && sep != "" && Calm(sep) && k <= |rest|
    requires var more := Join(parts[1..], sep); ModeAt(more + rest, |more| + k, Normal, false) != Some(Normal)
    ensures ModeAt(Join(parts, sep) + rest, |Join(parts, sep)| + k, Normal, false) != Some(Normal)
  {
    hide ModeAt, Smooth, IsPlain, Join;
    var more := Join(parts[1..], sep);
    JoinSplits(parts, sep, rest);
    SepIsCalm(sep, more + rest);
    SmoothInto(parts[0], sep, more + rest, |more| + k);
  }

  // One part that breaks spoils the whole.
  lemma {:induction false} JoinBreaks(parts: seq<string>, sep: string, rest: string, k: nat, i: nat)
    requires i < |parts| && Breaks(parts[i]) && AllMute(parts) && SmoothBelow(parts, i)
    requires IsGlue(sep) && IsPlain(sep) && sep != "" && Calm(sep) && Calm(rest) && Hopeless(rest, k)
    ensures ModeAt(Join(parts, sep) + rest, |Join(parts, sep)| + k, Normal, false) != Some(Normal)
    decreases |parts|
  {
    hide Hopeless, ModeAt, Mute, Breaks, Smooth, AllMute, SmoothBelow, IsGlue, IsPlain, Calm, Join;
    HopelessFits(rest, k);
    if i == 0 {
      FirstBreaks(parts, sep, rest, k);
    } else {
      RestIsSo(parts, i);
      JoinBreaks(parts[1..], sep, rest, k, i - 1);
      LaterBreaks(parts, sep, rest, k);
    }
  }

  lemma JoinSplits(parts: seq<string>, sep: string, rest: string)
    requires |parts| > 1
    ensures var more := Join(parts[1..], sep);
            Join(parts, sep) + rest == parts[0] + (sep + (more + rest))
            && |Join(parts, sep)| == |parts[0]| + |sep| + |more|
  {
    var more := Join(parts[1..], sep);
    Assoc(parts[0], sep, more);
    Assoc(sep, more, rest);
    Assoc(parts[0], sep + more, rest);
  }

  lemma SepIsCalm(sep: string, t: string)
    requires sep != "" && Calm(sep)
    ensures Calm(sep + t) && NoQuoteAhead(sep + t)
  {
  }

  // A smooth part and a separator are passed in normal mode.
  lemma SmoothInto(part: string, sep: string, t: string, k: nat)
    requires Smooth(part) && IsPlain(sep) && NoQuoteAhead(sep + t) && k <= |t|
    ensures |sep| + k <= |sep + t|
    ensures ModeAt(part + (sep + t), |part| + (|sep| + k), Normal, false) == ModeAt(t, k, Normal, false)
  {
    hide ModeAt, IsPlain;
    assert Carries(part, sep + t);
    CarriesInto(part, sep + t, |sep| + k);
    PlainCarries(sep, t);
    CarriesInto(sep, t, k);
  }

  lemma BreaksBefore(part: string, t: string, k: nat)
    requires Breaks(part) && Hopeless(t, k) && Calm(t)
    ensures ModeAt(part + t, |part| + k, Normal, false) != Some(Normal)
  {
  }

  lemma CarriesInto(x: string, t: string, k: nat)
    requires Carries(x, t) && k <= |t|
    ensures ModeAt(x + t, |x| + k, Normal, false) == ModeAt(t, k, Normal, false)
  {
    ModeAtFrom(x, t, k, Normal, Normal);
  }

  lemma StringIsMute(v: string)
    ensures Mute(QuoteSQLString(v))
  {
    forall t, k: nat | Hopeless(t, k) && Calm(t)
      ensures Hopeless(QuoteSQLString(v) + t, |QuoteSQLString(v)| + k)
    {
      QuotedIsHopeless(v, '\'', t, k);
    }
  }

  lemma UnpairedBreaks(v: string)
    requires !BackslashesPaired(v)
    ensures Breaks(QuoteSQLString(v))
  {
    forall t, k: nat | Hopeless(t, k) && Calm(t)
      ensures ModeAt(QuoteSQLString(v) + t, |QuoteSQLString(v)| + k, Normal, false) != Some(Normal)
    {
      UnpairedLiteral(v, t, k);
    }
  }

  lemma CountSelectParts(v: string, t: string)
    ensures CountSelect(v) + t
         == "SELECT " + (QuoteSQLString(v) + (COUNT_MIDDLE + (QuoteSQLIdentifier(v) + t)))
    ensures |CountSelect(v)| == |"SELECT "| + |QuoteSQLString(v)| + |COUNT_MIDDLE| + |QuoteSQLIdentifier(v)|
  {
    Assoc("SELECT ", QuoteSQLString(v) + (COUNT_MIDDLE + QuoteSQLIdentifier(v)), t);
    Assoc(QuoteSQLString(v), COUNT_MIDDLE + QuoteSQLIdentifier(v), t);
    Assoc(COUNT_MIDDLE, QuoteSQLIdentifier(v), t);
  }

  lemma MiddleIsGlue()
    ensures IsGlue(COUNT_MIDDLE) && COUNT_MIDDLE != "" && COUNT_MIDDLE[0] == ' '
  {
  }

  // Behind the literal of a count.
  lemma CountTailHopeless(v: string, t: string, k: nat)
    requires Hopeless(t, k) && Calm(t)
    ensures var tail := COUNT_MIDDLE + (QuoteSQLIdentifier(v) + t);
            Hopeless(tail, |COUNT_MIDDLE| + |QuoteSQLIdentifier(v)| + k) && Calm(tail)
  {
    hide Hopeless, Doubled, IsGlue;
    QuotedIsHopeless(v, '`', t, k);
    MiddleIsGlue();
    assert (QuoteSQLIdentifier(v) + t)[0] == '`';
    GlueIsHopeless(COUNT_MIDDLE, QuoteSQLIdentifier(v) + t, |QuoteSQLIdentifier(v)| + k);
  }

  lemma CountIsMute(v: string)
    ensures Mute(CountSelect(v))
  {
    assert CountSelect(v)[0] == 'S';
    forall t, k: nat | Hopeless(t, k) && Calm(t)
      ensures Hopeless(CountSelect(v) + t, |CountSelect(v)| + k)
    {
      hide Hopeless, QuoteSQLString, QuoteSQLIdentifier, CountSelect, IsGlue;
      CountSelectParts(v, t);
      CountTailHopeless(v, t, k);
      StringIsMute(v);
      var tail := COUNT_MIDDLE + (QuoteSQLIdentifier(v) + t);
      var n := |COUNT_MIDDLE| + |QuoteSQLIdentifier(v)| + k;
      SelectGlue();
      StringHead(v, tail);
      GlueIsHopeless("SELECT ", QuoteSQLString(v) + tail, |QuoteSQLString(v)| + n);
    }
  }

  lemma SelectGlue()
    ensures IsGlue("SELECT ") && IsPlain("SELECT ")
  {
  }

  lemma StringHead(v: string, t: string)
    ensures (QuoteSQLString(v) + t)[0] == '\''
  {
  }

  lemma UnpairedCountBreaks(v: string)
    requires !BackslashesPaired(v)
    ensures Breaks(CountSelect(v))
  {
    forall t, k: nat | Hopeless(t, k) && Calm(t)
      ensures ModeAt(CountSelect(v) + t, |CountSelect(v)| + k, Normal, false) != Some(Normal)
    {
      UnpairedCount(v, t, k);
    }
  }

  lemma UnpairedCount(v: string, t: string, k: nat)
    requires !BackslashesPaired(v) && Hopeless(t, k) && Calm(t)
    ensures |CountSelect(v)| + k <= |CountSelect(v) + t|
    ensures ModeAt(CountSelect(v) + t, |CountSelect(v)| + k, Normal, false) != Some(Normal)
  {
    hide Hopeless, QuoteSQLString, QuoteSQLIdentifier, CountSelect, ModeAt, BackslashesPaired, Breaks, IsPlain, IsGlue;
    CountSelectParts(v, t);
    CountTailHopeless(v, t, k);
    UnpairedBreaks(v);
    var tail := COUNT_MIDDLE + (QuoteSQLIdentifier(v) + t);
    var n := |COUNT_MIDDLE| + |QuoteSQLIdentifier(v)| + k;
    SelectGlue();
    HopelessFits(tail, n);
    BreaksBefore(QuoteSQLString(v), tail, n);
    PlainCarries("SELECT ", QuoteSQLString(v) + tail);
    CarriesInto("SELECT ", QuoteSQLString(v) + tail, |QuoteSQLString(v)| + n);
  }

  // The first of some names that is not paired.
  lemma {:induction false} FirstUnpaired(names: seq<string>) returns (i: nat)
    requires !NamesPaired(names)
    ensures i < |names| && !BackslashesPaired(names[i]) && NamesPaired(names[..i])
  {
    if !BackslashesPaired(names[0]) {
      i := 0;
    } else {
      var k := FirstUnpaired(names[1..]);
      i := k + 1;
      assert names[..i] == [names[0]] + names[1..][..k];
    }
  }

  lemma UnpairedJoin(names: seq<string>, rest: string, k: nat)
    requires !NamesPaired(names) && Calm(rest) && Hopeless(rest, k)
    ensures var joined := Join(QuotedStrings(names), ",");
            ModeAt(joined + rest, |joined| + k, Normal, false) != Some(Normal)
  {
    var i := FirstUnpaired(names);
    var parts := QuotedStrings(names);
    forall j | 0 <= j < |parts| ensures Mute(parts[j]) { StringIsMute(names[j]); }
    forall j | 0 <= j < i
      ensures Smooth(parts[j])
    {
      assert names[..i][j] == names[j];
      StringIsSmooth(names[j]);
    }
    UnpairedBreaks(names[i]);
    JoinBreaks(parts, ",", rest, k, i);
  }

  lemma ListTail()
    ensures Hopeless(LIST_TAIL + ";", |LIST_TAIL|) && Calm(LIST_TAIL + ";")
  {
    HopelessEnd(";");
    assert IsGlue(LIST_TAIL) && LIST_TAIL[0] == ')';
    GlueIsHopeless(LIST_TAIL, ";", 0);
  }

  lemma ListParts(joined: string)
    ensures var body := LIST_HEAD + (joined + LIST_TAIL);
            body + ";" == LIST_HEAD + (joined + (LIST_TAIL + ";")) && |body| == |LIST_HEAD| + |joined| + |LIST_TAIL|
            && body != "" && Visible(body[0]) && body[0] != ';' && IsPlain(LIST_HEAD)
  {
    Assoc(LIST_HEAD, joined + LIST_TAIL, ";");
    Assoc(joined, LIST_TAIL, ";");
    SchemaHead("TABLE_NAME IN (");
    assert LIST_HEAD[0] == SELECT_NAME[0] == 'S';
  }

  // A text with a spoiled middle.
  lemma SpoiledIsOther(head: string, joined: string, tail: string)
    requires IsPlain(head) && head != "" && Visible(head[0]) && head[0] != ';'
    requires ModeAt(joined + (tail + ";"), |joined| + |tail|, Normal, false) != Some(Normal)
    ensures Split(head + (joined + tail) + ";") != [head + (joined + tail)]
  {
    hide ModeAt, IsPlain, Split, Visible;
    TextParts(head, joined, tail);
    SpoiledBehind(head, joined + (tail + ";"), |joined| + |tail|);
    BodyIsOther(head + (joined + tail));
  }

  lemma SpoiledBehind(head: string, more: string, k: nat)
    requires IsPlain(head) && k <= |more| && ModeAt(more, k, Normal, false) != Some(Normal)
    ensures |head| + k <= |head + more| && ModeAt(head + more, |head| + k, Normal, false) != Some(Normal)
  {
    hide ModeAt, IsPlain, Carries;
    PlainCarries(head, more);
    CarriesInto(head, more, k);
  }

  lemma TextParts(head: string, joined: string, tail: string)
    requires head != ""
    ensures var body := head + (joined + tail);
            body + ";" == head + (joined + (tail + ";")) && |body| == |head| + (|joined| + |tail|)
            && body != "" && body[0] == head[0] && |joined| + |tail| <= |joined + (tail + ";")|
  {
    Assoc(head, joined + tail, ";");
    Assoc(joined, tail, ";");
  }

  lemma BodyIsOther(body: string)
    requires body != "" && Visible(body[0]) && body[0] != ';'
    requires ModeAt(body + ";", |body|, Normal, false) != Some(Normal)
    ensures Split(body + ";") != [body]
  {
    hide ModeAt, SplitFrom, Visible;
    assert "" + body == body;
    UncarriedIsOther(body, Normal, "");
  }

  lemma UnpairedListIsOther(names: seq<string>)
    requires names != [] && !NamesPaired(names)
    ensures Split(ListBody(names) + ";") != [ListBody(names)]
  {
    hide Hopeless, ModeAt, IsPlain, NamesPaired, Split, Join, Calm, QuotedStrings;
    var joined := Join(QuotedStrings(names), ",");
    ListTail();
    ListHead();
    UnpairedJoin(names, LIST_TAIL + ";", |LIST_TAIL|);
    SpoiledIsOther(LIST_HEAD, joined, LIST_TAIL);
  }

  lemma ListHead()
    ensures IsPlain(LIST_HEAD) && LIST_HEAD != "" && Visible(LIST_HEAD[0]) && LIST_HEAD[0] != ';'
  {
    SchemaHead("TABLE_NAME IN (");
    assert LIST_HEAD[0] == SELECT_NAME[0] == 'S';
  }

  lemma StringIsSmooth(v: string)
    requires BackslashesPaired(v)
    ensures Smooth(QuoteSQLString(v))
  {
    forall t | NoQuoteAhead(t)
      ensures Carries(QuoteSQLString(v), t)
    {
      StringCarries(v, t);
    }
  }

  lemma CountIsSmooth(v: string)
    requires BackslashesPaired(v)
    ensures Smooth(CountSelect(v))
  {
    forall t | NoQuoteAhead(t)
      ensures Carries(CountSelect(v), t)
    {
      CountSelectCarries(v, t);
    }
  }

  lemma UnpairedCounts(names: seq<string>)
    requires !NamesPaired(names)
    ensures ModeAt(CountBody(names) + ";", |CountBody(names)|, Normal, false) != Some(Normal)
  {
    hide CountSelect, ModeAt, Smooth, Breaks, Mute, BackslashesPaired;
    var i := FirstUnpaired(names);
    var parts := Map(CountSelect, names);
    forall j | 0 <= j < |parts| ensures Mute(parts[j]) { CountIsMute(names[j]); }
    forall j | 0 <= j < i
      ensures Smooth(parts[j])
    {
      assert names[..i][j] == names[j];
      CountIsSmooth(names[j]);
    }
    UnpairedCountBreaks(names[i]);
    HopelessEnd(";");
    JoinBreaks(parts, UNION, ";", 0, i);
  }

  lemma CountBodyVisible(names: seq<string>)
    requires names != []
    ensures var body := CountBody(names); body != "" && Visible(body[0]) && body[0] != ';'
  {
    hide CountSelect;
    CountSelectHead(names[0]);
  }

  lemma CountSelectHead(v: string)
    ensures CountSelect(v) != "" && CountSelect(v)[0] == 'S'
  {
  }

  lemma UnpairedCountIsOther(names: seq<string>)
    requires !NamesPaired(names)
    ensures Split(CountBody(names) + ";") != [CountBody(names)]
  {
    hide CountBody, ModeAt, SplitFrom;
    var body := CountBody(names);
    UnpairedCounts(names);
    CountBodyVisible(names);
    assert "" + body == body;
    UncarriedIsOther(body, Normal, "");
  }

  // The table list query is one statement, itself, if and only if in each name every
  // backslash is followed by a character other than a quote.
  lemma TableListIsOneStatement(tables: seq<string>)
    ensures Split(ListBody(tables) + ";") == [ListBody(tables)] <==> NamesPaired(tables)
  {
    if NamesPaired(tables) {
      PairedListIsOne(tables);
    } else {
      UnpairedListIsOther(tables);
    }
  }

  // So is the row count query, for at least one table.
  lemma RowCountIsOneStatement(tables: seq<string>)
    ensures tables != [] ==> (Split(CountBody(tables) + ";") == [CountBody(tables)] <==> NamesPaired(tables))
    ensures tables == [] ==> Split(CountBody(tables) + ";") == []
  {
    if NamesPaired(tables) {
      PairedCountIsOne(tables);
    } else {
      UnpairedCountIsOther(tables);
    }
  }

  // ----- the rows of the first statement ---------------------------------------------------------------

  type Rows = seq<seq<string>>

  // Executing rendered SQL: one result per statement, whatever the server answers.
  function Execute(sql: string, answer: string -> Rows): seq<Rows> {
    Map(answer, Split(sql))
  }

  function FirstStatementRows(result: seq<Rows>): Rows {
    if result == [] then [] else result[0]
  }

  ghost predicate Drops(sql: string, answer: string -> Rows) {
    FirstStatementRows(Execute(sql, answer)) != Flatten(Execute(sql, answer))
  }

  // Rows can get lost by taking those of the first statement if and only if the text splits
  // into more than one.
  lemma RowsDroppedIff(sql: string)
    ensures (exists answer :: Drops(sql, answer)) <==> |Split(sql)| > 1
  {
    if |Split(sql)| > 1 {
      var answer: string -> Rows := _ => [[""]];
      var results := Execute(sql, answer);
      assert |Flatten(results)| == |results[0]| + |Flatten(results[1..])|;
      assert |Flatten(results[1..])| >= |results[1..][0]|;
      assert Drops(sql, answer);
    } else {
      forall answer: string -> Rows
        ensures !Drops(sql, answer)
      {
        var results := Execute(sql, answer);
        if |results| == 1 {
          FlattenOne(results[0]);
          assert results == [results[0]];
        }
      }
    }
  }

  // The rows of the first statement are all rows of the status query, and of the other two
  // if the names are paired.
  lemma FirstRowsAreAllRows(tables: seq<string>, answer: string -> Rows)
    ensures FirstStatementRows(Execute(StatusBody() + ";", answer)) == answer(StatusBody())
    ensures !Drops(StatusBody() + ";", answer)
    ensures NamesPaired(tables) ==>
              FirstStatementRows(Execute(ListBody(tables) + ";", answer)) == answer(ListBody(tables))
              && !Drops(ListBody(tables) + ";", answer) && !Drops(CountBody(tables) + ";", answer)
    ensures NamesPaired(tables) && tables != [] ==>
              FirstStatementRows(Execute(CountBody(tables) + ";", answer)) == answer(CountBody(tables))
  {
    hide Split, NamesPaired, StatusBody, ListBody, CountBody;
    StatusIsOneStatement();
    OneStatementRows(StatusBody() + ";", StatusBody(), answer);
    if NamesPaired(tables) {
      PairedListIsOne(tables);
      OneStatementRows(ListBody(tables) + ";", ListBody(tables), answer);
      PairedCountIsOne(tables);
      if tables != [] {
        OneStatementRows(CountBody(tables) + ";", CountBody(tables), answer);
      }
    }
  }

  lemma OneStatementRows(sql: string, statement: string, answer: string -> Rows)
    requires Split(sql) == [statement]
    ensures FirstStatementRows(Execute(sql, answer)) == answer(statement) && !Drops(sql, answer)
  {
    assert Execute(sql, answer) == [answer(statement)];
    FlattenOne(answer(statement));
  }

  // Inside a literal, text without quotes and backslashes is taken to the end.
  lemma {:induction false} LiteralSwallows(x: string, buffer: string)
    requires forall i :: 0 <= i < |x| ==> x[i] != '\'' && x[i] != '\\'
    ensures SplitFrom(x, Single, buffer) == Statement(buffer + x)
    decreases |x|
  {
    if x == "" {
      assert buffer + x == buffer;
    } else {
      assert Advance(x, Single) == (1, Single) && (buffer + x[..1]) + x[1..] == buffer + x;
      LiteralSwallows(x[1..], buffer + x[..1]);
    }
  }

  // The list query for a name that ends in a backslash: the closing quote becomes part of
  // the literal, and so does all that follows, terminator included.
  lemma TrailingBackslashSwallows()
    ensures Split(ListBody(["t\\"]) + ";") == [ListBody(["t\\"]) + ";"]
  {
    hide SplitFrom, IsPlain, Statement;
    var quoted, rest := "'t\\'", LIST_TAIL + ";";
    var body := ListBody(["t\\"]);
    QuotedBackslash();
    ListParts(quoted);
    HeadIsBuffered(quoted + rest);
    LiteralOpens(rest, LIST_HEAD);
    TailIsBuffered(LIST_HEAD + quoted);
    Assoc(LIST_HEAD, quoted, rest);
    WholeStatement(body + ";");
  }

  // The list query for a name with a backslash, a quote and a semicolon falls into two
  // statements, so the rows of the second are dropped.
  lemma ListSplitsInTwo()
    ensures Split(ListBody(["x\\';y"]) + ";") == [LIST_HEAD + "'x\\''", "y'" + (LIST_TAIL + ";")]
    ensures exists answer :: Drops(ListBody(["x\\';y"]) + ";", answer)
  {
    hide SplitFrom, IsPlain, Statement, Advance, Drops, Join, QuotedStrings;
    var quoted, first, second := "'x\\'';y'", "'x\\''", "y'" + (LIST_TAIL + ";");
    var rest := LIST_TAIL + ";";
    QuotedQuote();
    ListParts(quoted);
    assert quoted + rest == first + (";" + second);
    HeadIsBuffered(quoted + rest);
    LiteralCloses(second, LIST_HEAD);
    SecondStatement(rest);
    FirstStatement();
    RowsDroppedIff(ListBody(["x\\';y"]) + ";");
  }

  lemma QuotedQuote()
    ensures Join(QuotedStrings(["x\\';y"]), ",") == "'x\\'';y'"
  {
    hide Doubled;
    var v := "x\\';y";
    DoubledFirst("y", '\'');
    DoubledFirst(";y", '\'');
    DoubledFirst("';y", '\'');
    DoubledFirst("\\';y", '\'');
    DoubledFirst(v, '\'');
    assert "y"[1..] == "" && ";y"[1..] == "y" && "';y"[1..] == ";y" && "\\';y"[1..] == "';y" && v[1..] == "\\';y";
    assert QuoteSQLString(v) == "'x\\'';y'";
    assert QuotedStrings([v]) == [QuoteSQLString(v)];
  }

  lemma DoubledFirst(v: string, q: char)
    requires v != ""
    ensures Doubled(v, q) == (if v[0] == q then [q, q] else [v[0]]) + Doubled(v[1..], q)
    ensures v[1..] == "" ==> Doubled(v, q) == if v[0] == q then [q, q] else [v[0]]
  {
  }

  // The escaped quote is text, the next one closes, and the semicolon ends the statement.
  lemma LiteralCloses(t: string, buffer: string)
    ensures SplitFrom("'x\\''" + (";" + t), Normal, buffer) == Statement(buffer + "'x\\''") + Split(t)
  {
    hide Statement, SplitFrom;
    var rest := ";" + t;
    SplitStep("'x\\''" + rest, Normal, buffer, 1, Single, "x\\''" + rest, buffer + "'");
    SplitStep("x\\''" + rest, Single, buffer + "'", 1, Single, "\\''" + rest, buffer + "'x");
    SplitStep("\\''" + rest, Single, buffer + "'x", 2, Single, "'" + rest, buffer + "'x\\'");
    SplitStep("'" + rest, Single, buffer + "'x\\'", 1, Normal, rest, buffer + "'x\\''");
    TerminatorEnds(t, buffer + "'x\\''");
  }

  lemma TerminatorEnds(t: string, buffer: string)
    ensures SplitFrom(";" + t, Normal, buffer) == Statement(buffer) + Split(t)
  {
    assert (";" + t)[1..] == t;
  }

  lemma SecondStatement(rest: string)
    requires rest == LIST_TAIL + ";"
    ensures Split("y'" + rest) == ["y'" + rest]
  {
    hide Statement, SplitFrom;
    SplitStep("y'" + rest, Normal, "", 1, Normal, "'" + rest, "y");
    SplitStep("'" + rest, Normal, "y", 1, Single, rest, "y'");
    TailIsBuffered("y'");
    WholeStatement("y'" + rest);
  }

  lemma FirstStatement()
    ensures Statement(LIST_HEAD + "'x\\''") == [LIST_HEAD + "'x\\''"]
  {
    hide IsPlain;
    ListParts("");
    TrimVisible(LIST_HEAD + "'x\\''");
  }

  lemma HeadIsBuffered(t: string)
    ensures SplitFrom(LIST_HEAD + t, Normal, "") == SplitFrom(t, Normal, LIST_HEAD)
  {
    ListParts("");
    hide SplitFrom, IsPlain;
    PlainCarries(LIST_HEAD, t);
    CarriedIsBuffered(LIST_HEAD, t, Normal, Normal, "");
    assert "" + LIST_HEAD == LIST_HEAD;
  }

  lemma TailIsBuffered(buffer: string)
    ensures SplitFrom(LIST_TAIL + ";", Single, buffer) == Statement(buffer + (LIST_TAIL + ";"))
  {
    LiteralSwallows(LIST_TAIL + ";", buffer);
  }

  lemma WholeStatement(s: string)
    requires s != "" && Visible(s[0]) && s[|s| - 1] == ';'
    ensures Statement(s) == [s]
  {
    TrimVisible(s);
  }

  lemma QuotedBackslash()
    ensures Join(QuotedStrings(["t\\"]), ",") == "'t\\'"
  {
    var v := "t\\";
    assert v[1..] == "\\" && v[1..][1..] == "" && Doubled(v, '\'') == v;
    assert QuoteSQLString(v) == "'t\\'";
    assert QuotedStrings([v]) == [QuoteSQLString(v)];
  }

  lemma LiteralOpens(rest: string, buffer: string)
    ensures SplitFrom("'t\\'" + rest, Normal, buffer) == SplitFrom(rest, Single, buffer + "'t\\'")
  {
    SplitStep("'t\\'" + rest, Normal, buffer, 1, Single, "t\\'" + rest, buffer + "'");
    SplitStep("t\\'" + rest, Single, buffer + "'", 1, Single, "\\'" + rest, buffer + "'t");
    SplitStep("\\'" + rest, Single, buffer + "'t", 2, Single, rest, buffer + "'t\\'");
  }
}
