/**
 The deterministic gate as a whole: the checks ran on the candidate, every failing
 one was judged against the baseline of the base commit, and the evidence says
 whether the gate opens.
 */
module Gate {
  import opened Common
  import opened Checks
  import opened Evidence
  import opened Baseline

  /** How the gate words one verdict: only a regression is a failure. */
  function Worded(id: string, verdict: Verdict): Judgement {
    Judgement(
      if verdict.Regression? then Some("CHECK_FAILED:" + id) else None,
      if verdict.BaselineRed? || verdict.BaselineWarning? || verdict.SkippedInfrastructure?
      then Some("baseline:" + id) else None)
  }

  /** The judge handed to evidence collection: each check against its own baseline entry. */
  function BaselineJudge(record: BaselineRecord, parse: Parser): Judge {
    (c: CheckConfig, r: CheckResult) =>
      Worded(c.id, CompareCheck(BaselineOfResult(FingerprintOf(c), r, parse), EntryOf(record.checks, c.id)))
  }

  /** The only ways one check lets the gate open, given what its definition did on the base commit. */
  predicate LetsThrough(c: CheckConfig, r: CheckResult, o: Observed, parse: Parser) {
    || r.failureKind.Passed?
    || r.failureKind.SkippedInfra?
    || (r.failureKind.NonzeroExit? && Excuses(o, FingerprintOf(c), r, parse))
  }

  /** With distinct IDs, the entry of a check is the one at its own position. */
  lemma {:induction false} EntryAtItsPosition(entries: seq<CheckBaseline>, i: nat)
    requires i < |entries| && forall k :: 0 <= k < |entries| && k != i ==> entries[k].checkId != entries[i].checkId
    ensures EntryOf(entries, entries[i].checkId) == Some(entries[i])
    decreases |entries|
  {
    var last := |entries| - 1;
    if i < last {
      assert entries[..last][i] == entries[i];
      EntryAtItsPosition(entries[..last], i);
    }
  }

  lemma OneCheckLetsThrough(c: CheckConfig, r: CheckResult, record: BaselineRecord, o: Observed, parse: Parser)
    requires WellShaped(r) && EntryOf(record.checks, c.id) == Some(EntryFor(FingerprintOf(c), o, parse))
    ensures FailuresOf(c, r, true, Some(BaselineJudge(record, parse))) == [] <==> LetsThrough(c, r, o, parse)
  {
    if r.failureKind.NonzeroExit? {
      FailureIsExcusedExactlyWhen(FingerprintOf(c), o, r, parse);
    }
  }

  /** What was observed of each selected definition, as the entries of the record tell it. */
  ghost predicate ObservedBy(observed: seq<Observed>, selected: seq<CheckConfig>, record: BaselineRecord, base: string,
                             captured: set<Answer>, parse: Parser) {
    && |observed| == |selected| == |record.checks|
    && forall i :: 0 <= i < |selected| ==>
         && Answer(base, FingerprintOf(selected[i]), observed[i]) in captured
         && record.checks[i] == EntryFor(FingerprintOf(selected[i]), observed[i], parse)
  }

  lemma {:induction false} ObservationsExist(selected: seq<CheckConfig>, record: BaselineRecord, base: string,
                                             captured: set<Answer>, parse: Parser, n: nat)
    returns (observed: seq<Observed>)
    requires AnswersSelection(record, base, SelectionOf(selected), captured, parse) && n <= |selected|
    ensures |observed| == n
    ensures forall i :: 0 <= i < n ==>
      && Answer(base, FingerprintOf(selected[i]), observed[i]) in captured
      && record.checks[i] == EntryFor(FingerprintOf(selected[i]), observed[i], parse)
  {
    if n == 0 {
      observed := [];
    } else {
      observed := ObservationsExist(selected, record, base, captured, parse, n - 1);
      var d := SelectionOf(selected)[n - 1];
      assert Tells(record.checks[n - 1], base, d, captured, parse);
      var o :| Answer(base, d, o) in captured && record.checks[n - 1] == EntryFor(d, o, parse);
      observed := observed + [o];
    }
  }

  /** The judge finds the entry of each check. */
  lemma OwnEntry(selected: seq<CheckConfig>, record: BaselineRecord, base: string, captured: set<Answer>, parse: Parser,
                 observed: seq<Observed>, i: nat)
    requires DistinctIds(selected) && i < |selected|
    requires ObservedBy(observed, selected, record, base, captured, parse)
    ensures EntryOf(record.checks, selected[i].id) == Some(EntryFor(FingerprintOf(selected[i]), observed[i], parse))
  {
    forall k | 0 <= k < |selected| ensures record.checks[k].checkId == selected[k].id {
      assert record.checks[k] == EntryFor(FingerprintOf(selected[k]), observed[k], parse);
    }
    EntryAtItsPosition(record.checks, i);
  }

  /**
   The gate opens exactly when nothing failed outside the checks and every selected check passed, was
   skipped, or failed in a way that what its own definition did on this very base commit excuses.
   */
  lemma GateOpensExactlyWhen(selected: seq<CheckConfig>, results: seq<CheckResult>, record: BaselineRecord,
                             base: string, captured: set<Answer>, parse: Parser, elsewhere: seq<GateFailure>,
                             observed: seq<Observed>)
    requires ResultsOf(selected, results)
    requires ObservedBy(observed, selected, record, base, captured, parse)
    ensures Bundle(selected, true, results, Some(BaselineJudge(record, parse)), elsewhere).deterministicPassed
       <==> elsewhere == [] &&
            forall i :: 0 <= i < |selected| ==> LetsThrough(selected[i], results[i], observed[i], parse)
  {
    var judge := Some(BaselineJudge(record, parse));
    FailuresAppear(elsewhere, selected, results, true, judge, |results|);
    forall i | 0 <= i < |selected|
      ensures FailuresOf(selected[i], results[i], true, judge) == [] <==>
        LetsThrough(selected[i], results[i], observed[i], parse)
    {
      OwnEntry(selected, record, base, captured, parse, observed, i);
      OneCheckLetsThrough(selected[i], results[i], record, observed[i], parse);
    }
  }

  /** Something observed of this definition on this base commit lets the result through. */
  ghost predicate LetThroughByBase(c: CheckConfig, r: CheckResult, base: string, captured: set<Answer>, parse: Parser) {
    exists o :: Answer(base, FingerprintOf(c), o) in captured && LetsThrough(c, r, o, parse)
  }

  /**
   The whole gate over any baseline the cache answers with, be it captured now, read back, or cut out of
   another selection's: the gate opens only past failures that one of the runs observed on the base excuses.
   */
  lemma OpenGateHasNoNewFailure(selected: seq<CheckConfig>, results: seq<CheckResult>, record: BaselineRecord,
                                base: string, captured: set<Answer>, parse: Parser, elsewhere: seq<GateFailure>)
    requires ResultsOf(selected, results)
    requires AnswersSelection(record, base, SelectionOf(selected), captured, parse)
    requires Bundle(selected, true, results, Some(BaselineJudge(record, parse)), elsewhere).deterministicPassed
    ensures elsewhere == []
    ensures forall i :: 0 <= i < |selected| ==> LetThroughByBase(selected[i], results[i], base, captured, parse)
  {
    var observed := ObservationsExist(selected, record, base, captured, parse, |selected|);
    GateOpensExactlyWhen(selected, results, record, base, captured, parse, elsewhere, observed);
    forall i | 0 <= i < |selected| ensures LetThroughByBase(selected[i], results[i], base, captured, parse) {
      assert LetsThrough(selected[i], results[i], observed[i], parse);
    }
  }

  /** In particular, a check that only ever passed on the base closes the gate when it fails on the candidate. */
  lemma PassedBaseExcusesNothing(selected: seq<CheckConfig>, results: seq<CheckResult>, record: BaselineRecord,
                                 base: string, captured: set<Answer>, parse: Parser, elsewhere: seq<GateFailure>,
                                 i: nat)
    requires ResultsOf(selected, results)
    requires AnswersSelection(record, base, SelectionOf(selected), captured, parse)
    requires i < |selected| && results[i].failureKind.NonzeroExit?
    requires forall o :: Answer(base, FingerprintOf(selected[i]), o) in captured ==> o.OnBase? && CleanPass(o.result)
    ensures !Bundle(selected, true, results, Some(BaselineJudge(record, parse)), elsewhere).deterministicPassed
  {
    assert !LetThroughByBase(selected[i], results[i], base, captured, parse);
    if Bundle(selected, true, results, Some(BaselineJudge(record, parse)), elsewhere).deterministicPassed {
      OpenGateHasNoNewFailure(selected, results, record, base, captured, parse, elsewhere);
    }
  }

  /** After a fresh capture the condition speaks of the two results of each check alone. */
  lemma GateAfterCaptureOpensExactlyWhen(selected: seq<CheckConfig>, onBase: seq<CheckResult>,
                                         results: seq<CheckResult>, base: string, parse: Parser,
                                         elsewhere: seq<GateFailure>)
    requires ResultsOf(selected, results) && |onBase| == |selected|
    ensures var record := CapturedRecord(base, selected, Ran(onBase), parse);
            Bundle(selected, true, results, Some(BaselineJudge(record, parse)), elsewhere).deterministicPassed
            <==> elsewhere == [] &&
                 forall i :: 0 <= i < |selected| ==>
                   LetsThrough(selected[i], results[i], OnBase(onBase[i]), parse)
  {
    var record := CapturedRecord(base, selected, Ran(onBase), parse);
    var observed := seq(|selected|, i requires 0 <= i < |selected| => OnBase(onBase[i]));
    var captured := set i | 0 <= i < |selected| :: Answer(base, FingerprintOf(selected[i]), observed[i]);
    GateOpensExactlyWhen(selected, results, record, base, captured, parse, elsewhere, observed);
  }

  /**
   The judging of one candidate: its results against the baseline the cache answers with.  It passes
   exactly when each result is let through by what was observed of its own definition on the base.
   */
  method JudgeCandidate(cache: BaselineCache, base: string, selected: seq<CheckConfig>, capture: Capture,
                        results: seq<CheckResult>, elsewhere: seq<GateFailure>)
    returns (bundle: EvidenceBundle, ghost observed: seq<Observed>)
    requires cache.Valid() && ResultsOf(selected, results)
    requires capture.Ran? ==> |capture.results| == |selected|
    modifies cache
    ensures cache.Valid() && |observed| == |selected|
    ensures forall i :: 0 <= i < |selected| ==>
      Answer(base, FingerprintOf(selected[i]), observed[i]) in cache.captured
    ensures bundle.deterministicPassed <==>
      elsewhere == [] && forall i :: 0 <= i < |selected| ==>
        LetsThrough(selected[i], results[i], observed[i], cache.parse)
  {
    var record := cache.EnsureSelected(base, selected, capture);
    observed := ObservationsExist(selected, record, base, cache.captured, cache.parse, |selected|);
    GateOpensExactlyWhen(selected, results, record, base, cache.captured, cache.parse, elsewhere, observed);
    bundle := CollectEvidence(selected, true, results, Some(BaselineJudge(record, cache.parse)), elsewhere);
  }
}
