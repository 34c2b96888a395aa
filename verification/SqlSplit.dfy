/**
 Splitting SQL text into statements (SplitSQLStatements in
 internal/jetmoncapacity/executor.go): a scanner that skips quotes and comments.
 */
module SqlSplit {
  import opened Seqs
  import opened Text

  datatype Mode = Normal | LineComment | BlockComment | Single | Double | Backtick

  // unicode.IsSpace of one byte taken as a rune.
  predicate IsRuneSpace(c: char) {
    IsSpace(c) || c == '\U{85}' || c == '\U{A0}'
  }

  function NextChar(s: string): char {
    if |s| > 1 then s[1] else '\0'
  }

  predicate StartsLineComment(s: string)
    requires s != ""
  {
    s[0] == '-' && NextChar(s) == '-' && (|s| <= 2 || IsRuneSpace(s[2]))
  }

  // How many characters the scanner takes at the head of s, and the mode after them. A
  // terminator in normal mode is not for this function.
  function Advance(s: string, mode: Mode): (r: (nat, Mode))
    requires s != ""
    ensures 1 <= r.0 <= 2 && r.0 <= |s|
  {
    var c, next := s[0], NextChar(s);
    match mode
    case LineComment => (1, if c == '\n' then Normal else LineComment)
    case BlockComment => if c == '*' && next == '/' then (2, Normal) else (1, BlockComment)
    case Single =>
      if c == '\\' && next != '\0' then (2, Single)
      else if c == '\'' then if next == '\'' then (2, Single) else (1, Normal)
      else (1, Single)
    case Double =>
      if c == '\\' && next != '\0' then (2, Double)
      else (1, if c == '"' then Normal else Double)
    case Backtick => (1, if c == '`' then Normal else Backtick)
    case Normal =>
      if StartsLineComment(s) then (2, LineComment)
      else if c == '/' && next == '*' then (2, BlockComment)
      else if c == '\'' then (1, Single)
      else if c == '"' then (1, Double)
      else if c == '`' then (1, Backtick)
      else (1, Normal)
  }

  // The statement in a buffer, if it is more than white space.
  function Statement(buffer: string): seq<string> {
    var stmt := TrimSpace(buffer);
    if stmt == "" then [] else [stmt]
  }

  function SplitFrom(s: string, mode: Mode, buffer: string): seq<string>
    decreases |s|
  {
    if s == "" then Statement(buffer)
    else if mode.Normal? && s[0] == ';' then Statement(buffer) + SplitFrom(s[1..], Normal, "")
    else
      var (n, m) := Advance(s, mode);
      SplitFrom(s[n..], m, buffer + s[..n])
  }

  function Split(s: string): seq<string> {
    SplitFrom(s, Normal, "")
  }

  method SplitSQLStatements(sqlText: string) returns (out: seq<string>)
    ensures out == Split(sqlText)
  {
    hide Statement;
    out := [];
    var b := "";
    var mode := Normal;
    var i := 0;
    while i < |sqlText|
      invariant 0 <= i <= |sqlText|
      invariant Split(sqlText) == out + SplitFrom(sqlText[i..], mode, b)
    {
      var c := sqlText[i];
      var next := if i + 1 < |sqlText| then sqlText[i + 1] else '\0';
      ghost var ahead := sqlText[i..];
      assert ahead[0] == c && NextChar(ahead) == next && ahead[1..] == sqlText[i + 1..] && ahead[..1] == [c];
      assert i + 1 < |sqlText| ==> ahead[2..] == sqlText[i + 2..] && ahead[..2] == [c, next];
      if mode.Normal? && c == ';' {
        Assoc(out, Statement(b), SplitFrom(sqlText[i + 1..], Normal, ""));
        out := out + Statement(b);
        b := "";
      } else {
        var pair, after := Next(sqlText, i, mode);
        if pair {
          b := b + [c, next];
          i := i + 1;
        } else {
          b := b + [c];
        }
        mode := after;
      }
      i := i + 1;
    }
    assert sqlText[i..] == "";
    out := out + Statement(b);
  }

  // The branches on the current and the following characters: whether two are taken, and
  // the mode after them.
  method Next(sqlText: string, i: nat, mode: Mode) returns (pair: bool, after: Mode)
    requires i < |sqlText|
    ensures Advance(sqlText[i..], mode) == (if pair then 2 else 1, after)
    ensures pair ==> i + 1 < |sqlText|
  {
    var c := sqlText[i];
    var next := if i + 1 < |sqlText| then sqlText[i + 1] else '\0';
    pair, after := false, mode;
    if mode.LineComment? {
      if c == '\n' {
        after := Normal;
      }
    } else if mode.BlockComment? {
      if c == '*' && next == '/' {
        pair, after := true, Normal;
      }
    } else if mode.Single? {
      if c == '\\' && next != '\0' {
        pair := true;
      } else if c == '\'' {
        if next == '\'' {
          pair := true;
        } else {
          after := Normal;
        }
      }
    } else if mode.Double? {
      if c == '\\' && next != '\0' {
        pair := true;
      } else if c == '"' {
        after := Normal;
      }
    } else if mode.Backtick? {
      if c == '`' {
        after := Normal;
      }
    } else if c == '-' && next == '-' && (i + 2 >= |sqlText| || IsRuneSpace(sqlText[i + 2])) {
      pair, after := true, LineComment;
    } else if c == '/' && next == '*' {
      pair, after := true, BlockComment;
    } else if c == '\'' {
      after := Single;
    } else if c == '"' {
      after := Double;
    } else if c == '`' {
      after := Backtick;
    }
  }

  // ----- closed boundaries ------------------------------------------------------------------

  // The mode after exactly the first k characters of s, if the scanner stops there. With
  // cross false, terminators on the way do not count as passed.
  function ModeAt(s: string, k: nat, mode: Mode, cross: bool): Option<Mode>
    requires k <= |s|
    decreases k
  {
    if k == 0 then Some(mode)
    else if mode.Normal? && s[0] == ';' then if cross then ModeAt(s[1..], k - 1, Normal, cross) else None
    else
      var (n, m) := Advance(s, mode);
      if n > k then None else ModeAt(s[n..], k - n, m, cross)
  }

  // The scanner is in normal mode when it reaches a ';' written after a.
  predicate ClosedBeforeTerminator(a: string) {
    ModeAt(a + ";", |a|, Normal, true) == Some(Normal)
  }

  // The head of a; decides a step, whatever follows; and so does the head of a, except
  // when a ends in two dashes.
  lemma AdvanceSees(a: string, b: string, mode: Mode)
    requires a != "" && !(mode.Normal? && a[0] == ';')
    ensures Advance(a + ";" + b, mode) == Advance(a + ";", mode)
    ensures Advance(a + ";", mode).0 <= |a| && !(mode.Normal? && a == "--") ==>
              Advance(a, mode) == Advance(a + ";", mode)
  {
    var s, t := a + ";", a + ";" + b;
    assert s[0] == a[0] && t[0] == a[0];
    if |a| == 1 {
      assert s[1] == ';' && t[1] == ';';
    } else {
      assert s[1] == a[1] && t[1] == a[1] && s[2] == t[2] && (if |a| == 2 then s[2] == ';' else s[2] == a[2]);
    }
  }

  lemma {:induction false} SplitAtClosed(a: string, b: string, mode: Mode, buffer: string)
    requires ModeAt(a + ";", |a|, mode, true) == Some(Normal)
    ensures SplitFrom(a + ";" + b, mode, buffer) == SplitFrom(a, mode, buffer) + Split(b)
    decreases |a|
  {
    var s, t := a + ";", a + ";" + b;
    if a == "" {
      assert t[0] == ';' && t[1..] == b;
    } else if mode.Normal? && a[0] == ';' {
      assert s[0] == ';' && t[0] == ';' && s[1..] == a[1..] + ";" && t[1..] == a[1..] + ";" + b;
      SplitAtClosed(a[1..], b, Normal, "");
      Assoc(Statement(buffer), SplitFrom(a[1..], Normal, ""), Split(b));
    } else {
      AdvanceSees(a, b, mode);
      var (n, m) := Advance(s, mode);
      DropOfSum(a, ";", n);
      DropOfSum(a, ";" + b, n);
      Assoc(a, ";", b);
      Assoc(a[n..], ";", b);
      SplitAtClosed(a[n..], b, m, buffer + a[..n]);
      StepAlone(a, mode, buffer);
    }
  }

  // The step taken in front of a terminator fits a on its own as well.
  lemma StepAlone(a: string, mode: Mode, buffer: string)
    requires a != "" && !(mode.Normal? && a[0] == ';') && Advance(a + ";", mode).0 <= |a|
    ensures var (n, m) := Advance(a + ";", mode);
            SplitFrom(a, mode, buffer) == SplitFrom(a[n..], m, buffer + a[..n])
  {
    AdvanceSees(a, "", mode);
    if mode.Normal? && a == "--" {
      DashesEnd(buffer);
      assert Advance("--" + ";", mode) == (1, Normal);
      assert a[1..] == "-" && a[..1] == "-";
    }
  }

  // Two dashes at the very end open a comment with nothing in it: the text is the same.
  lemma DashesEnd(buffer: string)
    ensures SplitFrom("--", Normal, buffer) == SplitFrom("-", Normal, buffer + "-")
  {
    var d := "--";
    assert d[2..] == "" && d[..2] == d && d[1..] == "-";
    assert SplitFrom(d, Normal, buffer) == Statement(buffer + "--");
    assert "-"[1..] == "" && "-"[..1] == "-";
    assert (buffer + "-") + "-" == buffer + "--";
  }

  // Splitting is a homomorphism at closed boundaries.
  lemma SplitHomomorphism(a: string, b: string)
    requires ClosedBeforeTerminator(a)
    ensures Split(a + ";" + b) == Split(a) + Split(b)
  {
    SplitAtClosed(a, b, Normal, "");
  }

  // ----- text that is part of one statement ---------------------------------------------------

  // In front of rest, the scanner passes x from normal mode to normal mode and meets no
  // terminator.
  predicate Carries(x: string, rest: string) {
    ModeAt(x + rest, |x|, Normal, false) == Some(Normal)
  }

  lemma {:induction false} ModeAtCompose(x: string, y: string, rest: string, mode: Mode, m: Mode)
    requires ModeAt(x + (y + rest), |x|, mode, false) == Some(m)
    ensures ModeAt((x + y) + rest, |x + y|, mode, false) == ModeAt(y + rest, |y|, m, false)
    decreases |x|
  {
    var s := x + (y + rest);
    Assoc(x, y, rest);
    if x == "" {
      assert s == y + rest;
    } else {
      var (n, m') := Advance(s, mode);
      DropOfSum(x, y + rest, n);
      DropOfSum(x, y, n);
      Assoc(x[n..], y, rest);
      ModeAtCompose(x[n..], y, rest, m', m);
    }
  }

  // Once x is passed, the scanner goes on as if the text began there.
  lemma ModeAtFrom(x: string, t: string, k: nat, mode: Mode, m: Mode)
    requires k <= |t| && ModeAt(x + t, |x|, mode, false) == Some(m)
    ensures ModeAt(x + t, |x| + k, mode, false) == ModeAt(t, k, m, false)
  {
    assert t == t[..k] + t[k..];
    ModeAtCompose(x, t[..k], t[k..], mode, m);
    Assoc(x, t[..k], t[k..]);
  }

  lemma StepTo(s: string, k: nat, mode: Mode, n: nat, m: Mode, t: string)
    requires s != "" && !(mode.Normal? && s[0] == ';') && Advance(s, mode) == (n, m)
    requires s[n..] == t && n <= k <= |s|
    ensures ModeAt(s, k, mode, false) == ModeAt(t, k - n, m, false)
  {
  }

  lemma CarriesCompose(x: string, y: string, rest: string)
    requires Carries(x, y + rest) && Carries(y, rest)
    ensures Carries(x + y, rest)
  {
    ModeAtCompose(x, y, rest, Normal, Normal);
  }

  lemma {:induction false} CarriedIsBuffered(x: string, rest: string, mode: Mode, m: Mode, buffer: string)
    requires ModeAt(x + rest, |x|, mode, false) == Some(m)
    ensures SplitFrom(x + rest, mode, buffer) == SplitFrom(rest, m, buffer + x)
    decreases |x|
  {
    var s := x + rest;
    if x == "" {
      assert s == rest && buffer + x == buffer;
    } else {
      var (n, m') := Advance(s, mode);
      assert s[n..] == x[n..] + rest && s[..n] == x[..n];
      assert (buffer + x[..n]) + x[n..] == buffer + x;
      CarriedIsBuffered(x[n..], rest, m', m, buffer + x[..n]);
    }
  }

  // Text that carries up to its terminator is one statement.
  lemma CarriedIsOneStatement(x: string)
    requires Carries(x, ";")
    ensures Split(x + ";") == Statement(x)
  {
    CarriedIsBuffered(x, ";", Normal, Normal, "");
    assert "" + x == x && ";"[1..] == "";
    assert SplitFrom(";", Normal, x) == Statement(x) + SplitFrom("", Normal, "");
  }

  predicate PlainChar(c: char) {
    c != '-' && c != '/' && c != '\'' && c != '"' && c != '`' && c != ';'
  }

  predicate IsPlain(x: string) {
    forall i :: 0 <= i < |x| ==> PlainChar(x[i])
  }

  lemma {:induction false} PlainCarries(x: string, rest: string)
    requires IsPlain(x)
    ensures Carries(x, rest)
    decreases |x|
  {
    if x != "" {
      assert (x + rest)[1..] == x[1..] + rest && (x + rest)[0] == x[0];
      PlainCarries(x[1..], rest);
    }
  }

  // ----- comments and double quotes -----------------------------------------------------------

  lemma {:induction false} CommentRuns(x: string, rest: string)
    requires '\n' !in x
    ensures ModeAt(x + ("\n" + rest), |x| + 1, LineComment, false) == Some(Normal)
    decreases |x|
  {
    var s := x + ("\n" + rest);
    if x == "" {
      assert s == "\n" + rest && s[1..] == rest;
    } else {
      assert s[0] == x[0] && s[1..] == x[1..] + ("\n" + rest);
      CommentRuns(x[1..], rest);
    }
  }

  // Two dashes and white space: everything up to the end of the line is passed over.
  lemma LineCommentCarries(x: string, rest: string)
    requires x != "" && IsRuneSpace(x[0]) && '\n' !in x
    ensures Carries("--" + (x + "\n"), rest)
  {
    var s := "--" + (x + "\n") + rest;
    assert s[2] == x[0] && s[2..] == x + ("\n" + rest);
    assert Advance(s, Normal) == (2, LineComment);
    CommentRuns(x, rest);
  }

  // Nothing in x ends a block comment, not even with its last character.
  predicate NoBlockEnd(x: string) {
    forall i :: 0 <= i < |x| ==> !(x[i] == '*' && i + 1 < |x| && x[i + 1] == '/')
  }

  lemma {:induction false} BlockRuns(x: string, rest: string)
    requires NoBlockEnd(x)
    ensures ModeAt(x + ("*/" + rest), |x| + 2, BlockComment, false) == Some(Normal)
    decreases |x|
  {
    var s := x + ("*/" + rest);
    if x == "" {
      assert s == "*/" + rest && s[2..] == rest;
    } else {
      assert s[0] == x[0] && s[1] == (if |x| > 1 then x[1] else '*') && s[1..] == x[1..] + ("*/" + rest);
      assert Advance(s, BlockComment) == (1, BlockComment);
      BlockRuns(x[1..], rest);
    }
  }

  lemma BlockCommentCarries(x: string, rest: string)
    requires NoBlockEnd(x)
    ensures Carries("/*" + (x + "*/"), rest)
  {
    var s := "/*" + (x + "*/") + rest;
    assert s[0] == '/' && s[1] == '*' && s[2..] == x + ("*/" + rest);
    assert Advance(s, Normal) == (2, BlockComment);
    BlockRuns(x, rest);
  }

  // Text without a closing double quote: each backslash takes the next character along.
  predicate DoubleQuotable(x: string) {
    if x == "" then true
    else if x[0] == '\\' then |x| > 1 && x[1] != '\0' && DoubleQuotable(x[2..])
    else x[0] != '"' && DoubleQuotable(x[1..])
  }

  lemma {:induction false} QuotedRuns(x: string, rest: string)
    requires DoubleQuotable(x)
    ensures ModeAt(x + ("\"" + rest), |x| + 1, Double, false) == Some(Normal)
    decreases |x|
  {
    var s := x + ("\"" + rest);
    if x == "" {
      assert s == "\"" + rest && s[1..] == rest;
    } else if x[0] == '\\' {
      assert s[1] == x[1] && s[2..] == x[2..] + ("\"" + rest);
      QuotedRuns(x[2..], rest);
    } else {
      assert s[0] == x[0] && s[1..] == x[1..] + ("\"" + rest);
      QuotedRuns(x[1..], rest);
    }
  }

  lemma DoubleQuotedCarries(x: string, rest: string)
    requires DoubleQuotable(x)
    ensures Carries("\"" + (x + "\""), rest)
  {
    var s := "\"" + (x + "\"") + rest;
    assert s[0] == '"' && s[1..] == x + ("\"" + rest);
    assert Advance(s, Normal) == (1, Double);
    QuotedRuns(x, rest);
  }

  // A part of the text in which no semicolon counts.
  ghost predicate Shielded(c: string) {
    || (exists x :: x != "" && IsRuneSpace(x[0]) && '\n' !in x && c == "--" + (x + "\n"))
    || (exists x :: NoBlockEnd(x) && c == "/*" + (x + "*/"))
    || (exists x :: DoubleQuotable(x) && c == "\"" + (x + "\""))
  }

  // Comments and double quotes are passed over, whatever stands in them and around them.
  lemma ShieldedCarries(c: string, rest: string)
    requires Shielded(c)
    ensures Carries(c, rest)
    ensures forall buffer :: SplitFrom(c + rest, Normal, buffer) == SplitFrom(rest, Normal, buffer + c)
  {
    hide Carries, NoBlockEnd, DoubleQuotable;
    if x :| x != "" && IsRuneSpace(x[0]) && '\n' !in x && c == "--" + (x + "\n") {
      LineCommentCarries(x, rest);
    } else if x :| NoBlockEnd(x) && c == "/*" + (x + "*/") {
      BlockCommentCarries(x, rest);
    } else {
      var x :| DoubleQuotable(x) && c == "\"" + (x + "\"");
      DoubleQuotedCarries(x, rest);
    }
    ShieldedIsBuffered(c, rest);
  }

  lemma ShieldedIsBuffered(c: string, rest: string)
    requires Carries(c, rest)
    ensures forall buffer :: SplitFrom(c + rest, Normal, buffer) == SplitFrom(rest, Normal, buffer + c)
  {
    forall buffer
      ensures SplitFrom(c + rest, Normal, buffer) == SplitFrom(rest, Normal, buffer + c)
    {
      CarriedIsBuffered(c, rest, Normal, Normal, buffer);
    }
  }

  // So plain text around one is a single statement.
  lemma ShieldedIsOneStatement(a: string, c: string, b: string)
    requires IsPlain(a) && Shielded(c) && IsPlain(b)
    ensures Split(a + (c + b) + ";") == Statement(a + (c + b))
  {
    hide Carries, IsPlain, Shielded, SplitFrom;
    PlainCarries(b, ";");
    ShieldedCarries(c, b + ";");
    CarriesCompose(c, b, ";");
    PlainCarries(a, (c + b) + ";");
    CarriesCompose(a, c + b, ";");
    CarriedIsOneStatement(a + (c + b));
  }

  lemma SplitStep(s: string, mode: Mode, buffer: string, n: nat, m: Mode, t: string, buffer': string)
    requires s != "" && !(mode.Normal? && s[0] == ';') && Advance(s, mode) == (n, m)
    requires s[n..] == t && buffer + s[..n] == buffer'
    ensures SplitFrom(s, mode, buffer) == SplitFrom(t, m, buffer')
  {
  }

  // Two dashes without white space behind them are no comment.
  lemma DashesAreText(c: char, b: string)
    requires PlainChar(c) && !IsRuneSpace(c)
    ensures Split("--" + [c] + ";" + b) == Statement("--" + [c]) + Split(b)
  {
    var s := "--" + [c] + ";" + b;
    assert s[0] == '-' && s[1] == '-' && s[2] == c && s[3] == ';';
    assert s[1..][0] == '-' && s[1..][1] == c && s[1..][2] == ';' && s[1..][1..] == s[2..];
    assert s[2..][0] == c && s[2..][1..] == ";" + b && (";" + b)[1..] == b;
    assert Advance(s, Normal) == (1, Normal) && Advance(s[1..], Normal) == (1, Normal);
    assert Advance(s[2..], Normal) == (1, Normal);
    SplitStep(s, Normal, "", 1, Normal, s[1..], "-");
    SplitStep(s[1..], Normal, "-", 1, Normal, s[2..], "--");
    SplitStep(s[2..], Normal, "--", 1, Normal, ";" + b, "--" + [c]);
  }

  // In plain text a semicolon ends the statement.
  lemma PlainEnds(a: string, b: string)
    requires IsPlain(a)
    ensures Split(a + ";" + b) == Statement(a) + Split(b)
  {
    PlainCarries(a, ";");
    PlainCarries(a, ";" + b);
    Assoc(a, ";", b);
    CarriedIsBuffered(a, ";" + b, Normal, Normal, "");
    assert "" + a == a && (";" + b)[1..] == b;
  }

  // ----- text that is not one statement ------------------------------------------------------

  // If the scanner is not in normal mode at the terminator after x, x is not what it makes
  // of the text.
  lemma {:induction false} UncarriedIsOther(x: string, mode: Mode, buffer: string)
    requires ModeAt(x + ";", |x|, mode, false) != Some(Normal)
    requires buffer + x != "" && Visible((buffer + x)[0]) && (buffer != "" || x[0] != ';')
    ensures SplitFrom(x + ";", mode, buffer) != [buffer + x]
    decreases |x|
  {
    var s := x + ";";
    if x == "" {
      EndsInTerminator(s, mode, buffer);
    } else if mode.Normal? && x[0] == ';' {
      assert s[0] == ';' && (buffer + x)[0] == buffer[0];
      TrimKeepsHead(buffer);
      assert SplitFrom(s, mode, buffer)[0] == TrimSpace(buffer);
    } else {
      var (n, m) := Advance(s, mode);
      if n <= |x| {
        DropOfSum(x, ";", n);
        assert (buffer + x[..n]) + x[n..] == buffer + x;
        UncarriedIsOther(x[n..], m, buffer + x[..n]);
      } else {
        assert s[..n] == s && s[n..] == "";
        TerminatorStays(buffer + s);
        assert buffer + s == (buffer + x) + ";";
      }
    }
  }

  lemma TerminatorStays(buffer: string)
    requires buffer != "" && Visible(buffer[0]) && buffer[|buffer| - 1] == ';'
    ensures SplitFrom("", Normal, buffer) == Statement(buffer) == [buffer]
  {
    TrimVisible(buffer);
  }

  lemma EndsInTerminator(s: string, mode: Mode, buffer: string)
    requires s == ";" && mode != Normal && buffer != "" && Visible(buffer[0])
    ensures SplitFrom(s, mode, buffer) == [buffer + ";"]
  {
    assert Advance(s, mode) == (1, mode);
    assert s[1..] == "" && s[..1] == ";";
    TerminatorStays(buffer + ";");
  }
}
