/**
 Results of one batch and the counters of a mode
 (cmd/uptime-bench-veriflier-url-once/main.go): what a v1 or v2 endpoint's answer, or
 its failure to answer, becomes, and how results are counted.
 */
module ResultTally {
  import opened Seqs
  import opened HostBatches

  datatype CheckResult = CheckResult(
    blogID: int, success: bool, transportErr: string, missing: bool, overloaded: bool)

  // ----- counting ----------------------------------------------------------------------

  datatype Tally = Tally(
    completed: nat, missing: nat, transportErrors: nat, overloadResponses: nat,
    expectedMatches: nat, unexpected: nat, errorsByKind: map<string, nat>)

  const EMPTY_TALLY := Tally(0, 0, 0, 0, 0, 0, map[])

  function Bump(m: map<string, nat>, kind: string): map<string, nat> {
    m[kind := (if kind in m then m[kind] else 0) + 1]
  }

  function BumpAll(m: map<string, nat>, kinds: seq<string>): map<string, nat>
    decreases kinds
  {
    if kinds == [] then m else BumpAll(Bump(m, kinds[0]), kinds[1..])
  }

  // The error kinds one result is counted under.
  function Kinds(r: CheckResult): seq<string> {
    if r.transportErr != "" then [r.transportErr]
    else (if r.overloaded then ["overload"] else []) + (if r.missing then ["missing_result"] else [])
  }

  function One(b: bool): nat {
    if b then 1 else 0
  }

  function Account(t: Tally, r: CheckResult): Tally {
    var answered := r.transportErr == "";
    var done := answered && !r.missing;
    Tally(t.completed + One(done),
          t.missing + One(answered && r.missing),
          t.transportErrors + One(!answered),
          t.overloadResponses + One(answered && r.overloaded),
          t.expectedMatches + One(done && r.success),
          t.unexpected + One(done && !r.success),
          BumpAll(t.errorsByKind, Kinds(r)))
  }

  function AccountAll(t: Tally, rs: seq<CheckResult>): Tally
    decreases rs
  {
    if rs == [] then t else AccountAll(Account(t, rs[0]), rs[1..])
  }

  lemma {:induction false} AccountAppend(t: Tally, a: seq<CheckResult>, b: seq<CheckResult>)
    ensures AccountAll(t, a + b) == AccountAll(AccountAll(t, a), b)
    decreases a
  {
    if a == [] {
      assert a + b == b;
    } else {
      assert (a + b)[1..] == a[1..] + b;
      AccountAppend(Account(t, a[0]), a[1..], b);
    }
  }

  lemma AccountSnoc(t: Tally, rs: seq<CheckResult>, r: CheckResult)
    ensures AccountAll(t, rs + [r]) == Account(AccountAll(t, rs), r)
  {
    AccountAppend(t, rs, [r]);
    var u := AccountAll(t, rs);
    assert AccountAll(u, [r]) == AccountAll(Account(u, r), [r][1..]);
  }

  // One result, case by case.
  lemma AccountCases(t: Tally, r: CheckResult)
    ensures r.transportErr != "" ==>
              Account(t, r) == t.(transportErrors := t.transportErrors + 1,
                                  errorsByKind := Bump(t.errorsByKind, r.transportErr))
    ensures r.transportErr == "" ==>
              var u := if !r.overloaded then t
                       else t.(overloadResponses := t.overloadResponses + 1,
                               errorsByKind := Bump(t.errorsByKind, "overload"));
              Account(t, r)
              == if r.missing then
                   u.(missing := u.missing + 1, errorsByKind := Bump(u.errorsByKind, "missing_result"))
                 else if r.success then u.(completed := u.completed + 1, expectedMatches := u.expectedMatches + 1)
                 else u.(completed := u.completed + 1, unexpected := u.unexpected + 1)
  {
    hide Bump, BumpAll, Kinds;
    BumpShort(t.errorsByKind, r);
  }

  // ----- what each counter counts -------------------------------------------------------

  predicate IsFailed(r: CheckResult) {
    r.transportErr != ""
  }

  predicate IsMissing(r: CheckResult) {
    r.transportErr == "" && r.missing
  }

  predicate IsCompleted(r: CheckResult) {
    r.transportErr == "" && !r.missing
  }

  predicate IsExpected(r: CheckResult) {
    r.transportErr == "" && !r.missing && r.success
  }

  predicate IsUnexpected(r: CheckResult) {
    r.transportErr == "" && !r.missing && !r.success
  }

  predicate IsOverload(r: CheckResult) {
    r.transportErr == "" && r.overloaded
  }

  function FailedAs(kind: string): CheckResult -> bool {
    (r: CheckResult) => r.transportErr == kind
  }

  // How many results are filed under an error kind: transport errors by their name, and
  // of the others the overloads and the missing ones.
  function KindCount(kind: string, rs: seq<CheckResult>): nat {
    (if kind != "" then Count(FailedAs(kind), rs) else 0)
    + (if kind == "overload" then Count(IsOverload, rs) else 0)
    + (if kind == "missing_result" then Count(IsMissing, rs) else 0)
  }

  function Entry(m: map<string, nat>, kind: string): nat {
    if kind in m then m[kind] else 0
  }

  // u is t with the results counted in.
  ghost predicate CountedIn(t: Tally, rs: seq<CheckResult>, u: Tally) {
    && u.completed == t.completed + Count(IsCompleted, rs)
    && u.missing == t.missing + Count(IsMissing, rs)
    && u.transportErrors == t.transportErrors + Count(IsFailed, rs)
    && u.overloadResponses == t.overloadResponses + Count(IsOverload, rs)
    && u.expectedMatches == t.expectedMatches + Count(IsExpected, rs)
    && u.unexpected == t.unexpected + Count(IsUnexpected, rs)
    && (forall kind :: Entry(u.errorsByKind, kind) == Entry(t.errorsByKind, kind) + KindCount(kind, rs))
    && (forall kind :: kind in u.errorsByKind <==> kind in t.errorsByKind || KindCount(kind, rs) > 0)
  }

  lemma KindsCount(m: map<string, nat>, r: CheckResult, kind: string)
    ensures Entry(BumpAll(m, Kinds(r)), kind) == Entry(m, kind) + KindCount(kind, [r])
    ensures kind in BumpAll(m, Kinds(r)) <==> kind in m || KindCount(kind, [r]) > 0
  {
    BumpShort(m, r);
    CountOne(FailedAs(kind), r);
    CountOne(IsOverload, r);
    CountOne(IsMissing, r);
  }

  lemma KindCountFirst(kind: string, rs: seq<CheckResult>)
    requires rs != []
    ensures KindCount(kind, rs) == KindCount(kind, [rs[0]]) + KindCount(kind, rs[1..])
  {
    CountFirst(FailedAs(kind), rs);
    CountFirst(IsOverload, rs);
    CountFirst(IsMissing, rs);
  }

  lemma OneCounted(t: Tally, r: CheckResult)
    ensures CountedIn(t, [r], Account(t, r))
  {
    forall kind
      ensures Entry(Account(t, r).errorsByKind, kind) == Entry(t.errorsByKind, kind) + KindCount(kind, [r])
      ensures kind in Account(t, r).errorsByKind <==> kind in t.errorsByKind || KindCount(kind, [r]) > 0
    {
      KindsCount(t.errorsByKind, r, kind);
    }
    hide KindCount, BumpAll, Kinds, Entry, Count;
    CountOne(IsCompleted, r);
    CountOne(IsMissing, r);
    CountOne(IsFailed, r);
    CountOne(IsOverload, r);
    CountOne(IsExpected, r);
    CountOne(IsUnexpected, r);
  }

  lemma FirstCounted(t: Tally, rs: seq<CheckResult>, u: Tally, v: Tally)
    requires rs != [] && CountedIn(t, [rs[0]], u) && CountedIn(u, rs[1..], v)
    ensures CountedIn(t, rs, v)
  {
    hide KindCount, Entry, Count;
    CountFirst(IsCompleted, rs);
    CountFirst(IsMissing, rs);
    CountFirst(IsFailed, rs);
    CountFirst(IsOverload, rs);
    CountFirst(IsExpected, rs);
    CountFirst(IsUnexpected, rs);
    forall kind
      ensures KindCount(kind, rs) == KindCount(kind, [rs[0]]) + KindCount(kind, rs[1..])
    {
      KindCountFirst(kind, rs);
    }
  }

  // Every counter is the number of results whose fields say so.
  lemma {:induction false} CountersAreExact(t: Tally, rs: seq<CheckResult>)
    ensures CountedIn(t, rs, AccountAll(t, rs))
    decreases rs
  {
    if rs == [] {
      NothingCounted(t);
    } else {
      hide CountedIn, Account;
      OneCounted(t, rs[0]);
      CountersAreExact(Account(t, rs[0]), rs[1..]);
      FirstCounted(t, rs, Account(t, rs[0]), AccountAll(t, rs));
    }
  }

  lemma NothingCounted(t: Tally)
    ensures CountedIn(t, [], t)
  {
  }

  // The counters of one mode.
  class ModeResult {
    var completed: nat
    var missing: nat
    var transportErrors: nat
    var overloadResponses: nat
    var expectedMatches: nat
    var unexpected: nat
    var errorsByKind: map<string, nat>

    function Value(): Tally
      reads this
    {
      Tally(completed, missing, transportErrors, overloadResponses, expectedMatches, unexpected, errorsByKind)
    }

    constructor ()
      ensures Value() == EMPTY_TALLY
    {
      completed, missing, transportErrors, overloadResponses := 0, 0, 0, 0;
      expectedMatches, unexpected, errorsByKind := 0, 0, map[];
    }

    method Accumulate(items: seq<CheckResult>)
      modifies this
      ensures Value() == AccountAll(old(Value()), items) && CountedIn(old(Value()), items, Value())
    {
      ghost var start := Value();
      for n := 0 to |items|
        invariant Value() == AccountAll(start, items[..n])
      {
        hide AccountAll, Account, CountedIn;
        assert items[..n + 1] == items[..n] + [items[n]];
        AccountSnoc(start, items[..n], items[n]);
        AccumulateOne(items[n]);
      }
      assert items[..|items|] == items;
      CountersAreExact(start, items);
    }

    // The body of the loop.
    method AccumulateOne(res: CheckResult)
      modifies this
      ensures Value() == Account(old(Value()), res)
    {
      hide Account, Bump;
      AccountCases(Value(), res);
      if res.transportErr != "" {
        transportErrors := transportErrors + 1;
        errorsByKind := Bump(errorsByKind, res.transportErr);
        return;
      }
      if res.overloaded {
        overloadResponses := overloadResponses + 1;
        errorsByKind := Bump(errorsByKind, "overload");
      }
      if res.missing {
        missing := missing + 1;
        errorsByKind := Bump(errorsByKind, "missing_result");
        return;
      }
      completed := completed + 1;
      if res.success {
        expectedMatches := expectedMatches + 1;
      } else {
        unexpected := unexpected + 1;
      }
    }
  }

  // Every result is counted exactly once: as completed, missing or a transport error;
  // and every completed one as expected or unexpected.
  lemma {:induction false} EveryResultCounted(t: Tally, rs: seq<CheckResult>)
    ensures var u := AccountAll(t, rs);
            u.completed + u.missing + u.transportErrors == t.completed + t.missing + t.transportErrors + |rs|
            && u.completed - u.expectedMatches - u.unexpected == t.completed - t.expectedMatches - t.unexpected
    decreases rs
  {
    if rs != [] {
      EveryResultCounted(Account(t, rs[0]), rs[1..]);
    }
  }

  lemma BumpShort(m: map<string, nat>, r: CheckResult)
    ensures r.transportErr != "" ==> BumpAll(m, Kinds(r)) == Bump(m, r.transportErr)
    ensures r.transportErr == "" && r.overloaded && r.missing ==>
              BumpAll(m, Kinds(r)) == Bump(Bump(m, "overload"), "missing_result")
    ensures r.transportErr == "" && r.overloaded && !r.missing ==> BumpAll(m, Kinds(r)) == Bump(m, "overload")
    ensures r.transportErr == "" && !r.overloaded && r.missing ==> BumpAll(m, Kinds(r)) == Bump(m, "missing_result")
    ensures r.transportErr == "" && !r.overloaded && !r.missing ==> BumpAll(m, Kinds(r)) == m
  {
    if r.transportErr == "" && r.overloaded && r.missing {
      var m1 := Bump(m, "overload");
      assert Kinds(r)[1..] == ["missing_result"] && Kinds(r)[0] == "overload";
      assert BumpAll(m1, ["missing_result"]) == Bump(m1, "missing_result");
    }
  }

  lemma {:induction false} BumpPastAll(m: map<string, nat>, k: string, ks: seq<string>)
    ensures BumpAll(Bump(m, k), ks) == Bump(BumpAll(m, ks), k)
    decreases ks
  {
    if ks != [] {
      assert Bump(Bump(m, k), ks[0]) == Bump(Bump(m, ks[0]), k);
      BumpPastAll(Bump(m, ks[0]), k, ks[1..]);
    }
  }

  lemma {:induction false} BumpsCommute(m: map<string, nat>, js: seq<string>, ks: seq<string>)
    ensures BumpAll(BumpAll(m, js), ks) == BumpAll(BumpAll(m, ks), js)
    decreases js
  {
    if js != [] {
      BumpsCommute(Bump(m, js[0]), js[1..], ks);
      BumpPastAll(m, js[0], ks);
    }
  }

  lemma AccountCommutes(t: Tally, x: CheckResult, y: CheckResult)
    ensures Account(Account(t, x), y) == Account(Account(t, y), x)
  {
    BumpsCommute(t.errorsByKind, Kinds(x), Kinds(y));
  }

  lemma AccountOnce(t: Tally, x: CheckResult, rest: seq<CheckResult>)
    ensures AccountAll(t, [x] + rest) == AccountAll(Account(t, x), rest)
  {
    assert ([x] + rest)[1..] == rest;
  }

  lemma {:induction false} AccountFirst(t: Tally, a: seq<CheckResult>, x: CheckResult)
    ensures AccountAll(t, a + [x]) == AccountAll(t, [x] + a)
    decreases a
  {
    if a == [] {
      assert a + [x] == [x] + a;
    } else {
      assert (a + [x])[1..] == a[1..] + [x];
      AccountFirst(Account(t, a[0]), a[1..], x);
      assert AccountAll(t, a + [x]) == AccountAll(Account(Account(t, a[0]), x), a[1..]) by {
        assert ([x] + a[1..])[1..] == a[1..];
      }
      AccountCommutes(t, a[0], x);
      assert ([x] + a)[1..] == a;
    }
  }

  lemma AccountMiddle(t: Tally, pre: seq<CheckResult>, x: CheckResult, post: seq<CheckResult>)
    ensures AccountAll(t, (pre + [x]) + post) == AccountAll(Account(t, x), pre + post)
  {
    hide Account, AccountAll;
    AccountFirst(t, pre, x);
    AccountAppend(t, pre + [x], post);
    AccountAppend(t, [x] + pre, post);
    AccountOnce(t, x, pre + post);
    Assoc([x], pre, post);
  }

  // The counters do not depend on the order in which results arrive.
  lemma {:induction false} TallyOrderFree(t: Tally, a: seq<CheckResult>, b: seq<CheckResult>)
    requires multiset(a) == multiset(b)
    ensures AccountAll(t, a) == AccountAll(t, b)
    decreases a
  {
    if a == [] {
      NoneSame(a, b);
    } else {
      var x := a[0];
      var pre, post := CutOut(a, b);
      hide Account, AccountAll;
      TallyOrderFree(Account(t, x), a[1..], pre + post);
      AccountMiddle(t, pre, x, post);
      AccountOnce(t, x, a[1..]);
      assert a == [x] + a[1..];
    }
  }

  ghost predicate OverloadsAreErrors(rs: seq<CheckResult>) {
    forall r :: r in rs && r.overloaded ==> r.transportErr != ""
  }

  // Overloads are counted only on results without a transport error.
  lemma {:induction false} OverloadsCounted(t: Tally, rs: seq<CheckResult>)
    requires OverloadsAreErrors(rs)
    ensures AccountAll(t, rs).overloadResponses == t.overloadResponses
    decreases rs
  {
    if rs != [] {
      OverloadsCounted(Account(t, rs[0]), rs[1..]);
    }
  }

  function Overloads(rs: seq<CheckResult>): nat {
    if rs == [] then 0 else One(rs[0].overloaded) + Overloads(rs[1..])
  }

  lemma {:induction false} SomeOverload(rs: seq<CheckResult>)
    ensures Overloads(rs) == 0 <==> forall r :: r in rs ==> !r.overloaded
  {
    if rs != [] {
      SomeOverload(rs[1..]);
      assert rs == [rs[0]] + rs[1..];
    }
  }

  // So the counter is right only if nothing was overloaded.
  lemma OverloadCountRightIff(rs: seq<CheckResult>)
    requires OverloadsAreErrors(rs)
    ensures AccountAll(EMPTY_TALLY, rs).overloadResponses == Overloads(rs) <==> forall r :: r in rs ==> !r.overloaded
  {
    OverloadsCounted(EMPTY_TALLY, rs);
    SomeOverload(rs);
  }

  // ----- one batch ---------------------------------------------------------------------

  datatype TransportKind = Timeout | ConnectionRefused | ConnectionReset | DecodeError | OtherError

  // The names classifyTransportErr gives to errors.
  function KindName(k: TransportKind): (s: string)
    ensures s != ""
  {
    match k
    case Timeout => "transport_timeout"
    case ConnectionRefused => "connection_refused"
    case ConnectionReset => "connection_reset"
    case DecodeError => "decode_error"
    case OtherError => "transport_error"
  }

  // No two classes of errors are counted under one name.
  lemma KindNamesDiffer(k: TransportKind, l: TransportKind)
    ensures KindName(k) == KindName(l) <==> k == l
    ensures KindName(Timeout) == "transport_timeout" && KindName(ConnectionRefused) == "connection_refused"
    ensures KindName(ConnectionReset) == "connection_reset" && KindName(DecodeError) == "decode_error"
    ensures KindName(OtherError) == "transport_error"
  {
    assert "transport_timeout"[10] != "transport_error"[10] && |"connection_refused"| != |"connection_reset"|;
  }

  datatype Row = Row(blogID: int, status: int)
  datatype V2Result = V2Result(blogID: int, success: bool)

  // How the world outside answers one batch. Callbacks are the rows that arrived after the
  // IDs of the batch were forgotten, in order.
  datatype Reply =
    | V1SendFailed(kind: TransportKind)
    | V1NoCallbackServer
    | V1Callbacks(received: seq<Row>)
    | V2EncodeFailed
    | V2BuildFailed
    | V2SendFailed(kind: TransportKind)
    | V2Overloaded
    | V2BadStatus(statusName: string)
    | V2DecodeFailed
    | V2Results(results: seq<V2Result>)
    | UnknownEndpoint

  // The callback server's store after rows arrived: the last one of each blog ID.
  function Stored(callbacks: map<int, Row>, rows: seq<Row>): (r: map<int, Row>)
    requires forall id :: id in callbacks ==> callbacks[id].blogID == id
    ensures forall id :: id in r ==> r[id].blogID == id
    ensures forall id :: id in r <==> id in callbacks || exists i :: 0 <= i < |rows| && rows[i].blogID == id
    decreases rows
  {
    if rows == [] then callbacks else Stored(callbacks[rows[0].blogID := rows[0]], rows[1..])
  }

  function CheckIDs(b: Batch): (ids: seq<int>)
    ensures |ids| == |b| && forall i :: 0 <= i < |b| ==> ids[i] == b[i].id
  {
    seq(|b|, i requires 0 <= i < |b| => b[i].id)
  }

  function ResultIDs(rs: seq<CheckResult>): (ids: seq<int>)
    ensures |ids| == |rs| && forall i :: 0 <= i < |rs| ==> ids[i] == rs[i].blogID
  {
    seq(|rs|, i requires 0 <= i < |rs| => rs[i].blogID)
  }

  ghost predicate IDsDistinct(b: Batch) {
    forall i, j :: 0 <= i < j < |b| ==> b[i].id != b[j].id
  }

  // One result for each check of the batch, and no other.
  ghost predicate OnePerCheck(b: Batch, rs: seq<CheckResult>) {
    multiset(ResultIDs(rs)) == multiset(CheckIDs(b))
  }

  function TransportFailures(b: Batch, kind: string): (rs: seq<CheckResult>)
    ensures OnePerCheck(b, rs)
    ensures |rs| == |b| && forall i :: 0 <= i < |b| ==> rs[i] == CheckResult(b[i].id, false, kind, false, false)
  {
    var rs := seq(|b|, i requires 0 <= i < |b| => CheckResult(b[i].id, false, kind, false, false));
    assert ResultIDs(rs) == CheckIDs(b);
    rs
  }

  function OverloadFailures(b: Batch): (rs: seq<CheckResult>)
    ensures OnePerCheck(b, rs)
    ensures |rs| == |b|
    ensures forall i :: 0 <= i < |b| ==> rs[i] == CheckResult(b[i].id, false, "overload_503", false, true)
  {
    var rs := seq(|b|, i requires 0 <= i < |b| => CheckResult(b[i].id, false, "overload_503", false, true));
    assert ResultIDs(rs) == CheckIDs(b);
    rs
  }

  function RowIDs(rows: seq<Row>): (ids: seq<int>)
    ensures |ids| == |rows| && forall i :: 0 <= i < |rows| ==> ids[i] == rows[i].blogID
  {
    seq(|rows|, i requires 0 <= i < |rows| => rows[i].blogID)
  }

  // The stored rows of the wanted IDs, in the arbitrary order of a map.
  method GetIDs(callbacks: map<int, Row>, ids: set<int>) returns (rows: seq<Row>)
    requires forall id :: id in callbacks ==> callbacks[id].blogID == id
    ensures forall id :: multiset(RowIDs(rows))[id] == One(id in ids && id in callbacks)
    ensures forall i :: 0 <= i < |rows| ==> rows[i].blogID in callbacks && rows[i] == callbacks[rows[i].blogID]
  {
    rows := [];
    var todo := ids;
    while todo != {}
      invariant forall id :: multiset(RowIDs(rows))[id] == One(id in ids && id !in todo && id in callbacks)
      invariant forall i :: 0 <= i < |rows| ==> rows[i].blogID in callbacks && rows[i] == callbacks[rows[i].blogID]
      decreases todo
    {
      ghost var some := Member(todo);
      var id: int :| id in todo;
      if id in callbacks {
        assert RowIDs(rows + [callbacks[id]]) == RowIDs(rows) + [id];
        rows := rows + [callbacks[id]];
      }
      todo := todo - {id};
    }
  }

  // Rows that came become results; checks without a row become missing results.
  method ConvertV1Rows(checks: Batch, rows: seq<Row>) returns (out: seq<CheckResult>)
    ensures |out| >= |rows|
    ensures forall i :: 0 <= i < |rows| ==> out[i] == CheckResult(rows[i].blogID, rows[i].status == 1, "", false, false)
    ensures forall i :: |rows| <= i < |out| ==> out[i] == CheckResult(out[i].blogID, false, "", true, false)
    ensures ResultIDs(out[|rows|..]) == Unseen(CheckIDs(checks), set i | i in RowIDs(rows))
  {
    var seen: set<int> := {};
    out := [];
    for n := 0 to |rows|
      invariant |out| == n && seen == set i | i in RowIDs(rows[..n])
      invariant forall i :: 0 <= i < n ==> out[i] == CheckResult(rows[i].blogID, rows[i].status == 1, "", false, false)
    {
      assert RowIDs(rows[..n + 1]) == RowIDs(rows[..n]) + [rows[n].blogID];
      seen := seen + {rows[n].blogID};
      out := out + [CheckResult(rows[n].blogID, rows[n].status == 1, "", false, false)];
    }
    assert rows[..|rows|] == rows;
    for n := 0 to |checks|
      invariant |out| >= |rows|
      invariant forall i :: 0 <= i < |rows| ==>
        out[i] == CheckResult(rows[i].blogID, rows[i].status == 1, "", false, false)
      invariant forall i :: |rows| <= i < |out| ==> out[i] == CheckResult(out[i].blogID, false, "", true, false)
      invariant ResultIDs(out[|rows|..]) == Unseen(CheckIDs(checks[..n]), seen)
    {
      assert CheckIDs(checks[..n + 1]) == CheckIDs(checks[..n]) + [checks[n].id];
      UnseenSnoc(CheckIDs(checks[..n]), checks[n].id, seen);
      if checks[n].id !in seen {
        var r := CheckResult(checks[n].id, false, "", true, false);
        assert (out + [r])[|rows|..] == out[|rows|..] + [r];
        out := out + [r];
      }
    }
    assert checks[..|checks|] == checks;
  }

  function Unseen(ids: seq<int>, seen: set<int>): seq<int> {
    if ids == [] then [] else (if ids[0] in seen then [] else [ids[0]]) + Unseen(ids[1..], seen)
  }

  lemma {:induction false} UnseenSnoc(ids: seq<int>, id: int, seen: set<int>)
    ensures Unseen(ids + [id], seen) == Unseen(ids, seen) + if id in seen then [] else [id]
  {
    if ids != [] {
      assert (ids + [id])[1..] == ids[1..] + [id];
      UnseenSnoc(ids[1..], id, seen);
    }
  }

  lemma {:induction false} UnseenFrom(ids: seq<int>, seen: set<int>, x: int)
    requires x in Unseen(ids, seen)
    ensures x in ids && x !in seen
  {
    if !(ids[0] !in seen && x == ids[0]) {
      UnseenFrom(ids[1..], seen, x);
    }
  }

  lemma {:induction false} UnseenCount(ids: seq<int>, seen: set<int>, x: int)
    requires forall i, j :: 0 <= i < j < |ids| ==> ids[i] != ids[j]
    ensures multiset(Unseen(ids, seen))[x] == One(x in ids && x !in seen)
  {
    if ids != [] {
      UnseenCount(ids[1..], seen, x);
      assert ids == [ids[0]] + ids[1..];
    }
  }

  // The last result of each blog ID.
  function ByID(results: seq<V2Result>): map<int, V2Result> {
    if results == [] then map[]
    else ByID(results[..|results| - 1])[results[|results| - 1].blogID := results[|results| - 1]]
  }

  function V2ResultFor(check: UrlCheck, byID: map<int, V2Result>): CheckResult {
    if check.id in byID then CheckResult(check.id, byID[check.id].success, "", false, false)
    else CheckResult(check.id, false, "", true, false)
  }

  function V2ResultsFor(b: Batch, results: seq<V2Result>): (rs: seq<CheckResult>)
    ensures OnePerCheck(b, rs)
    ensures forall i :: 0 <= i < |rs| ==> rs[i].transportErr == "" && !rs[i].overloaded
  {
    var byID := ByID(results);
    var rs := seq(|b|, i requires 0 <= i < |b| => V2ResultFor(b[i], byID));
    assert ResultIDs(rs) == CheckIDs(b);
    rs
  }

  lemma V1CoversBatch(b: Batch, rows: seq<Row>, results: seq<CheckResult>, callbacks: map<int, Row>)
    requires IDsDistinct(b) && |results| >= |rows|
    requires forall id :: multiset(RowIDs(rows))[id] == One(id in CheckIDs(b) && id in callbacks)
    requires forall i :: 0 <= i < |rows| ==> results[i].blogID == rows[i].blogID
    requires ResultIDs(results[|rows|..]) == Unseen(CheckIDs(b), set i | i in RowIDs(rows))
    ensures OnePerCheck(b, results)
  {
    var ids, seen := CheckIDs(b), set i | i in RowIDs(rows);
    assert ResultIDs(results) == RowIDs(rows) + ResultIDs(results[|rows|..]);
    forall x
      ensures multiset(ResultIDs(results))[x] == multiset(ids)[x]
    {
      assert x in RowIDs(rows) <==> multiset(RowIDs(rows))[x] > 0;
      UnseenCount(ids, seen, x);
      DistinctCount(ids, x);
    }
  }

  // What the results of a batch can be: one per check, with overloads marked as errors, if
  // it was executed, and transport failures if its admission was cancelled.
  ghost predicate Answers(b: Batch, executed: bool, rs: seq<CheckResult>) {
    if executed then (IDsDistinct(b) ==> OnePerCheck(b, rs)) && OverloadsAreErrors(rs)
    else exists kind :: kind != "" && rs == TransportFailures(b, kind)
  }

  // Every check of the batch failed in the same way.
  ghost predicate AllFailed(b: Batch, rs: seq<CheckResult>, kind: string, overloaded: bool) {
    |rs| == |b| && forall i :: 0 <= i < |b| ==> rs[i] == CheckResult(b[i].id, false, kind, false, overloaded)
  }

  // Row j is the last that arrived for an ID.
  ghost predicate LastRow(rows: seq<Row>, id: int, j: nat) {
    j < |rows| && rows[j].blogID == id && forall k :: j < k < |rows| ==> rows[k].blogID != id
  }

  ghost predicate LastResult(results: seq<V2Result>, id: int, j: nat) {
    j < |results| && results[j].blogID == id && forall k :: j < k < |results| ==> results[k].blogID != id
  }

  // The result of a v1 check: missing without a callback, else a success if the last one
  // says status 1.
  ghost predicate V1Answer(rows: seq<Row>, r: CheckResult) {
    && r.transportErr == "" && !r.overloaded
    && (r.missing <==> forall j :: 0 <= j < |rows| ==> rows[j].blogID != r.blogID)
    && (r.missing ==> !r.success)
    && (forall j: nat :: LastRow(rows, r.blogID, j) ==> r.success == (rows[j].status == 1))
  }

  // The result of a v2 check: missing if the answer leaves it out, else the success of the
  // last result that has its ID.
  ghost predicate V2Answer(results: seq<V2Result>, r: CheckResult) {
    && r.transportErr == "" && !r.overloaded
    && (r.missing <==> forall j :: 0 <= j < |results| ==> results[j].blogID != r.blogID)
    && (r.missing ==> !r.success)
    && (forall j: nat :: LastResult(results, r.blogID, j) ==> r.success == results[j].success)
  }

  lemma {:induction false} StoredIsLast(callbacks: map<int, Row>, rows: seq<Row>, id: int)
    requires forall id :: id in callbacks ==> callbacks[id].blogID == id
    ensures forall j: nat :: LastRow(rows, id, j) ==>
              id in Stored(callbacks, rows) && Stored(callbacks, rows)[id] == rows[j]
    ensures (forall j :: 0 <= j < |rows| ==> rows[j].blogID != id) ==>
              (id in Stored(callbacks, rows) <==> id in callbacks)
              && (id in callbacks ==> Stored(callbacks, rows)[id] == callbacks[id])
    decreases rows
  {
    if rows != [] {
      StoredIsLast(callbacks[rows[0].blogID := rows[0]], rows[1..], id);
      assert Stored(callbacks, rows) == Stored(callbacks[rows[0].blogID := rows[0]], rows[1..]);
      hide Stored;
      assert forall k :: 0 < k < |rows| ==> rows[1..][k - 1] == rows[k];
      forall j: nat | LastRow(rows, id, j)
        ensures id in Stored(callbacks, rows) && Stored(callbacks, rows)[id] == rows[j]
      {
        if j > 0 {
          assert LastRow(rows[1..], id, j - 1);
        }
      }
    }
  }

  lemma ByIDSnoc(results: seq<V2Result>)
    requires results != []
    ensures var n := |results| - 1; ByID(results) == ByID(results[..n])[results[n].blogID := results[n]]
  {
  }

  lemma {:induction false} ByIDIsLast(results: seq<V2Result>, id: int)
    ensures id in ByID(results) <==> exists j :: 0 <= j < |results| && results[j].blogID == id
    ensures forall j: nat :: LastResult(results, id, j) ==> id in ByID(results) && ByID(results)[id] == results[j]
  {
    if results != [] {
      var n := |results| - 1;
      ByIDIsLast(results[..n], id);
      hide ByID;
      ByIDSnoc(results);
      forall j: nat | LastResult(results, id, j)
        ensures id in ByID(results) && ByID(results)[id] == results[j]
      {
        if j < n {
          assert LastResult(results[..n], id, j);
        }
      }
    }
  }

  lemma V2Answers(b: Batch, v2: seq<V2Result>)
    ensures var rs := V2ResultsFor(b, v2);
            |rs| == |b| && forall i :: 0 <= i < |b| ==> rs[i].blogID == b[i].id && V2Answer(v2, rs[i])
  {
    var rs := V2ResultsFor(b, v2);
    forall i | 0 <= i < |b|
      ensures rs[i].blogID == b[i].id && V2Answer(v2, rs[i])
    {
      ByIDIsLast(v2, b[i].id);
    }
  }

  // Rows of the store and missing results behind them, as answers to what was received.
  lemma V1Answers(b: Batch, received: seq<Row>, rows: seq<Row>, rs: seq<CheckResult>)
    requires var store := Stored(map[], received);
             forall i :: 0 <= i < |rows| ==> rows[i].blogID in store && rows[i] == store[rows[i].blogID]
    requires forall id :: multiset(RowIDs(rows))[id] == One(id in CheckIDs(b) && id in Stored(map[], received))
    requires |rs| >= |rows| && ResultIDs(rs[|rows|..]) == Unseen(CheckIDs(b), set i | i in RowIDs(rows))
    requires forall i :: 0 <= i < |rows| ==> rs[i] == CheckResult(rows[i].blogID, rows[i].status == 1, "", false, false)
    requires forall i :: |rows| <= i < |rs| ==> rs[i] == CheckResult(rs[i].blogID, false, "", true, false)
    ensures forall i :: 0 <= i < |rs| ==> rs[i].blogID in CheckIDs(b) && V1Answer(received, rs[i])
  {
    forall i | 0 <= i < |rs|
      ensures rs[i].blogID in CheckIDs(b) && V1Answer(received, rs[i])
    {
      if i < |rows| {
        assert RowIDs(rows)[i] in multiset(RowIDs(rows));
      } else {
        assert ResultIDs(rs[|rows|..])[i - |rows|] == rs[i].blogID;
        UnseenFrom(CheckIDs(b), (set id | id in RowIDs(rows)), rs[i].blogID);
        assert rs[i].blogID !in RowIDs(rows);
        assert rs[i].blogID !in multiset(RowIDs(rows));
      }
      StoredIsLast(map[], received, rs[i].blogID);
    }
  }

  // Whatever the endpoint does, every check of a batch with distinct IDs gets exactly one
  // result, and an overload is always marked as a transport error too.
  method ExecuteBatch(b: Batch, reply: Reply) returns (results: seq<CheckResult>)
    ensures IDsDistinct(b) ==> OnePerCheck(b, results)
    ensures OverloadsAreErrors(results)
    ensures match reply
            case V1SendFailed(kind) => AllFailed(b, results, KindName(kind), false)
            case V1NoCallbackServer => AllFailed(b, results, "callback_server_missing", false)
            case V1Callbacks(received) =>
              forall i :: 0 <= i < |results| ==> results[i].blogID in CheckIDs(b) && V1Answer(received, results[i])
            case V2EncodeFailed => AllFailed(b, results, "encode_request", false)
            case V2BuildFailed => AllFailed(b, results, "build_request", false)
            case V2SendFailed(kind) => AllFailed(b, results, KindName(kind), false)
            case V2Overloaded => AllFailed(b, results, "overload_503", true)
            case V2BadStatus(name) => AllFailed(b, results, "http_" + name, false)
            case V2DecodeFailed => AllFailed(b, results, "decode_response", false)
            case V2Results(v2) =>
              |results| == |b|
              && forall i :: 0 <= i < |b| ==> results[i].blogID == b[i].id && V2Answer(v2, results[i])
            case UnknownEndpoint => AllFailed(b, results, "unsupported_endpoint", false)
  {
    hide V1Answer, V2Answer, Stored;
    match reply
    case V1SendFailed(kind) => results := TransportFailures(b, KindName(kind));
    case V1NoCallbackServer => results := TransportFailures(b, "callback_server_missing");
    case V1Callbacks(received) =>
      var callbacks := Stored(map[], received);
      var wanted := set id | id in CheckIDs(b);
      var rows := GetIDs(callbacks, wanted);
      results := ConvertV1Rows(b, rows);
      if IDsDistinct(b) {
        V1CoversBatch(b, rows, results, callbacks);
      }
      V1Answers(b, received, rows, results);
    case V2EncodeFailed => results := TransportFailures(b, "encode_request");
    case V2BuildFailed => results := TransportFailures(b, "build_request");
    case V2SendFailed(kind) => results := TransportFailures(b, KindName(kind));
    case V2Overloaded => results := OverloadFailures(b);
    case V2BadStatus(name) => results := TransportFailures(b, "http_" + name);
    case V2DecodeFailed => results := TransportFailures(b, "decode_response");
    case V2Results(v2) =>
      results := V2ResultsFor(b, v2);
      V2Answers(b, v2);
    case UnknownEndpoint => results := TransportFailures(b, "unsupported_endpoint");
  }

  // What a worker reports for its batch.
  method ReportBatch(b: Batch, executed: bool, reply: Reply, cancellation: TransportKind)
    returns (results: seq<CheckResult>)
    ensures Answers(b, executed, results)
  {
    if executed {
      results := ExecuteBatch(b, reply);
    } else {
      results := TransportFailures(b, KindName(cancellation));
    }
  }
}
