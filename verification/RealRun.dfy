/**
 A whole real-URL run: the batches it cuts, the admission protocol it runs them under,
 and the counters it ends with (cmd/uptime-bench-veriflier-url-once/main.go).
 */
module RealRun {
  import opened Seqs
  import opened HostBatches
  import opened Admission
  import opened AdmissionSafety
  import opened AdmissionProgress
  import opened ResultTally

  function Min(a: int, b: int): (m: int)
    ensures m <= a && m <= b && (m == a || m == b)
  {
    if a < b then a else b
  }

  // Limits and batches as runRealMode sets them up: non-positive limits count as 1, and
  // no batch is larger than the token semaphore.
  method Plan(checks: seq<UrlCheck>, batchSize: int, perHostConcurrency: int, globalConcurrency: int)
    returns (c: Config, batches: seq<Batch>)
    ensures c == Config(PositiveOr1(perHostConcurrency), PositiveOr1(globalConcurrency))
    ensures Cuts(batches, checks, Min(PositiveOr1(batchSize), c.global))
    ensures AllBatches(batches, c.global) && Inv(c, Start(c, batches))
    ensures forall i :: 0 <= i < |batches| ==> 0 < |batches[i]| <= c.global && NoClash(batches[i])
  {
    c := Config(PositiveOr1(perHostConcurrency), PositiveOr1(globalConcurrency));
    batches := MakeHostAwareBatches(checks, Min(PositiveOr1(batchSize), c.global));
    assert AllBatches(batches, c.global) by {
      forall i | 0 <= i < |batches|
        ensures IsBatch(batches[i], c.global)
      {
        assert IsBatch(batches[i], Min(PositiveOr1(batchSize), c.global));
      }
    }
    StartInv(c, batches);
  }

  // ----- the same batches in another order hold the same checks -------------------------

  lemma {:induction false} FlattenOrderFree<T>(a: seq<seq<T>>, b: seq<seq<T>>)
    requires multiset(a) == multiset(b)
    ensures multiset(Flatten(a)) == multiset(Flatten(b))
  {
    if a == [] {
      NoneSame(a, b);
    } else {
      var pre, post := CutOut(a, b);
      FlattenOrderFree(a[1..], pre + post);
      FlattenAppend(pre, post);
      FlattenAppend(pre + [a[0]], post);
      FlattenSnoc(pre, a[0]);
      SwapMiddle(Flatten(pre), a[0], Flatten(post));
    }
  }

  lemma SwapMiddle<T>(x: seq<T>, y: seq<T>, z: seq<T>)
    ensures multiset((x + y) + z) == multiset(y) + multiset(x + z)
  {
  }

  lemma {:induction false} ResultsOfOutcomes(os: seq<Outcome>, results: seq<seq<CheckResult>>)
    requires |results| == |os| && forall i :: 0 <= i < |os| ==> OnePerCheck(os[i].batch, results[i])
    ensures OnePerCheck(Flatten(Reported(os)), Flatten(results))
  {
    if os != [] {
      ResultsOfOutcomes(os[1..], results[1..]);
      assert Reported(os)[1..] == Reported(os[1..]);
      assert ResultIDs(Flatten(results)) == ResultIDs(results[0]) + ResultIDs(Flatten(results[1..]));
      assert CheckIDs(Flatten(Reported(os))) == CheckIDs(os[0].batch) + CheckIDs(Flatten(Reported(os[1..])));
    }
  }

  lemma SameChecksSameIDs(a: Batch, b: Batch)
    requires multiset(a) == multiset(b)
    ensures multiset(CheckIDs(a)) == multiset(CheckIDs(b))
  {
    var id := (c: UrlCheck) => c.id;
    MapSame(id, a, b);
    assert CheckIDs(a) == Map(id, a) && CheckIDs(b) == Map(id, b);
  }

  // ----- conservation --------------------------------------------------------------------

  // The results a run collected for its outcomes.
  ghost predicate AllAnswered(os: seq<Outcome>, results: seq<seq<CheckResult>>) {
    |results| == |os| && forall i :: 0 <= i < |os| ==> Answers(os[i].batch, os[i].executed, results[i])
  }

  // A batch of checks with distinct IDs has distinct IDs.
  lemma BatchIsDistinct(batches: seq<Batch>, checks: seq<UrlCheck>, cap: int, b: Batch)
    requires Cuts(batches, checks, cap) && IDsDistinct(checks) && b in batches
    ensures IDsDistinct(b)
  {
    hide AllBatches, Flatten;
    var k :| 0 <= k < |batches| && batches[k] == b;
    FlattenPiece(batches, k);
    var lo := |Flatten(batches[..k])|;
    forall i, j | 0 <= i < j < |b|
      ensures b[i].id != b[j].id
    {
      assert checks[lo + i] == b[i] && checks[lo + j] == b[j];
    }
  }

  lemma OutcomesCoverChecks(os: seq<Outcome>, unfed: seq<Batch>, batches: seq<Batch>, checks: seq<UrlCheck>, cap: int,
                            results: seq<seq<CheckResult>>)
    requires Cuts(batches, checks, cap) && IDsDistinct(checks) && AllAnswered(os, results)
    requires multiset(Reported(os)) + multiset(unfed) == multiset(batches)
    ensures forall i :: 0 <= i < |os| ==> OnePerCheck(os[i].batch, results[i])
  {
    forall i | 0 <= i < |os|
      ensures OnePerCheck(os[i].batch, results[i])
    {
      assert Reported(os)[i] in multiset(Reported(os));
      assert os[i].batch in multiset(batches);
      BatchIsDistinct(batches, checks, cap, os[i].batch);
    }
  }

  // With distinct synthetic IDs, a run that ended without a crash has, whatever the
  // endpoints answered and in whatever order outcomes came, exactly one result for each
  // check, unless its batch was given up after a cancellation.
  lemma ResultsCoverChecks(c: Config, run: seq<State>, batches: seq<Batch>, checks: seq<UrlCheck>,
                           results: seq<seq<CheckResult>>)
    requires Cuts(batches, checks, c.global) && IDsDistinct(checks) && Run(c, run) && run[0] == Start(c, batches)
    requires Ended(c, run[|run| - 1]) && !run[|run| - 1].crashed && AllAnswered(run[|run| - 1].outcomes, results)
    ensures var unfed := Flatten(run[|run| - 1].unfed);
            multiset(ResultIDs(Flatten(results))) + multiset(CheckIDs(unfed)) == multiset(CheckIDs(checks))
  {
    var s := run[|run| - 1];
    EndedRun(c, run, batches);
    var reported := Reported(s.outcomes);
    OutcomesCoverChecks(s.outcomes, s.unfed, batches, checks, c.global, results);
    assert multiset(reported + s.unfed) == multiset(batches);
    FlattenOrderFree(reported + s.unfed, batches);
    FlattenAppend(reported, s.unfed);
    SameChecksSameIDs(Flatten(reported) + Flatten(s.unfed), checks);
    assert CheckIDs(Flatten(reported) + Flatten(s.unfed)) == CheckIDs(Flatten(reported)) + CheckIDs(Flatten(s.unfed));
    ResultsOfOutcomes(s.outcomes, results);
  }

  // Conservation of counts: Completed + Missing + TransportErrors is the number of URLs,
  // less only the checks a cancelled feeder never handed out, so without a cancellation
  // nothing is missing from the sum; and every completed check is expected or unexpected.
  lemma CountsAreConserved(c: Config, run: seq<State>, batches: seq<Batch>, checks: seq<UrlCheck>,
                           results: seq<seq<CheckResult>>)
    requires Cuts(batches, checks, c.global) && IDsDistinct(checks) && Run(c, run) && run[0] == Start(c, batches)
    requires Ended(c, run[|run| - 1]) && !run[|run| - 1].crashed && AllAnswered(run[|run| - 1].outcomes, results)
    ensures var t := AccountAll(EMPTY_TALLY, Flatten(results));
            && CountedIn(EMPTY_TALLY, Flatten(results), t)
            && t.completed + t.missing + t.transportErrors + |Flatten(run[|run| - 1].unfed)| == |checks|
            && t.completed == t.expectedMatches + t.unexpected
            && (!run[|run| - 1].cancelled ==> t.completed + t.missing + t.transportErrors == |checks|)
  {
    var s := run[|run| - 1];
    var rs, unfed := Flatten(results), Flatten(s.unfed);
    ResultsCoverChecks(c, run, batches, checks, results);
    assert |multiset(ResultIDs(rs))| == |rs| && |multiset(CheckIDs(unfed))| == |unfed|;
    assert |multiset(CheckIDs(checks))| == |checks|;
    EveryResultCounted(EMPTY_TALLY, rs);
    CountersAreExact(EMPTY_TALLY, rs);
    StartInv(c, batches);
    RunKeepsInv(c, run, |run| - 1);
  }

  // The loop over the outcomes: the counters of the mode are those of all results.
  method Collect(results: seq<seq<CheckResult>>) returns (m: ModeResult)
    ensures fresh(m) && m.Value() == AccountAll(EMPTY_TALLY, Flatten(results))
    ensures CountedIn(EMPTY_TALLY, Flatten(results), m.Value())
  {
    m := new ModeResult();
    for k := 0 to |results|
      invariant fresh(m) && m.Value() == AccountAll(EMPTY_TALLY, Flatten(results[..k]))
    {
      assert results[..k + 1] == results[..k] + [results[k]];
      FlattenSnoc(results[..k], results[k]);
      AccountAppend(EMPTY_TALLY, Flatten(results[..k]), results[k]);
      m.Accumulate(results[k]);
    }
    assert results[..|results|] == results;
    CountersAreExact(EMPTY_TALLY, Flatten(results));
  }

  lemma AnswersMarkOverloads(b: Batch, executed: bool, rs: seq<CheckResult>)
    requires Answers(b, executed, rs)
    ensures OverloadsAreErrors(rs)
  {
  }

  lemma {:induction false} AllMarkOverloads(os: seq<Outcome>, results: seq<seq<CheckResult>>)
    requires AllAnswered(os, results)
    ensures OverloadsAreErrors(Flatten(results))
  {
    if os != [] {
      AnswersMarkOverloads(os[0].batch, os[0].executed, results[0]);
      AllMarkOverloads(os[1..], results[1..]);
    }
  }

  // At every moment of every real run the counter of overload responses is 0, although
  // endpoints may answer 503: results of an overload carry a transport error, and those
  // are counted before overloads are looked at. So it is right only without overloads.
  lemma OverloadsNeverCounted(c: Config, run: seq<State>, k: nat, results: seq<seq<CheckResult>>)
    requires Run(c, run) && k < |run| && AllAnswered(run[k].outcomes, results)
    ensures var rs := Flatten(results); var counted := AccountAll(EMPTY_TALLY, rs).overloadResponses;
            counted == 0 && (counted == Overloads(rs) <==> forall r :: r in rs ==> !r.overloaded)
  {
    AllMarkOverloads(run[k].outcomes, results);
    OverloadsCounted(EMPTY_TALLY, Flatten(results));
    OverloadCountRightIff(Flatten(results));
  }
}
