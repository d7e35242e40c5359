/**
 Two independently written notions of "the gate passed": the failure list that
 evidence collection builds, and the later question whether every required check
 has a durable answer.  The judge is the baseline comparison, taken as any
 function; a missing or empty failure code clears the check.
 */
module Evidence {
  import opened Common
  import opened Checks
  import CheckRunner

  datatype GateFailure =
    | Gate(code: string)                  // head, diff and security failures, from outside the checks
    | SideEffectRepeatedBy(check: string)
    | CheckFailed(check: string)
    | InfrastructureUnavailableFor(check: string)
    | Judged(code: string)

  datatype Warning = Skipped(check: string, reason: string) | JudgeWarning(text: string)

  datatype Judgement = Judgement(failure: Option<string>, warning: Option<string>)

  type Judge = (CheckConfig, CheckResult) -> Judgement

  datatype EvidenceBundle = EvidenceBundle(
    requiredIds: seq<string>,
    checks: seq<CheckResult>,
    failures: seq<GateFailure>,
    warnings: seq<Warning>,
    cleared: seq<string>,
    deterministicPassed: bool)

  // ---------------------------------------------- what one check contributes

  predicate Given(text: Option<string>) {
    text.Some? && text.value != ""
  }

  /** Only these results are put to the baseline judge. */
  predicate Judgeable(c: CheckConfig, r: CheckResult, explicit: bool) {
    && !r.failureKind.SkippedInfra?
    && (explicit || c.required)
    && !r.timedOut
    && !InfrastructureKind(r.failureKind)
    && r.exitCode != 0
  }

  predicate Clears(c: CheckConfig, r: CheckResult, explicit: bool, judge: Option<Judge>) {
    Judgeable(c, r, explicit) && judge.Some? && !Given(judge.value(c, r).failure)
  }

  function FailuresOf(c: CheckConfig, r: CheckResult, explicit: bool, judge: Option<Judge>): seq<GateFailure> {
    (if SideEffect(r.failureKind) then [SideEffectRepeatedBy(r.name)]
     else if r.workspaceMutated && !r.mutationRecovered then [CheckFailed(r.name)]
     else [])
    + (if r.failureKind.SkippedInfra? || (!explicit && !c.required) then []
       else if r.timedOut || InfrastructureKind(r.failureKind) then [InfrastructureUnavailableFor(r.name)]
       else if r.exitCode == 0 || Clears(c, r, explicit, judge) then []
       else if judge.None? then [CheckFailed(r.name)]
       else [Judged(judge.value(c, r).failure.value)])
  }

  function WarningsOf(c: CheckConfig, r: CheckResult, explicit: bool, judge: Option<Judge>): seq<Warning> {
    if r.failureKind.SkippedInfra? then
      [Skipped(r.name, if r.skippedReason != "" then r.skippedReason else "infrastructure unavailable")]
    else if Judgeable(c, r, explicit) && judge.Some? && Given(judge.value(c, r).warning) then
      [JudgeWarning(judge.value(c, r).warning.value)]
    else []
  }

  /** The failures found elsewhere, then those of the first `n` checks. */
  function FailuresUpTo(elsewhere: seq<GateFailure>, selected: seq<CheckConfig>, results: seq<CheckResult>,
                        explicit: bool, judge: Option<Judge>, n: nat): seq<GateFailure>
    requires n <= |selected| == |results|
  {
    if n == 0 then elsewhere
    else
      FailuresUpTo(elsewhere, selected, results, explicit, judge, n - 1)
      + FailuresOf(selected[n - 1], results[n - 1], explicit, judge)
  }

  function WarningsUpTo(selected: seq<CheckConfig>, results: seq<CheckResult>, explicit: bool, judge: Option<Judge>,
                        n: nat): seq<Warning>
    requires n <= |selected| == |results|
  {
    if n == 0 then []
    else
      WarningsUpTo(selected, results, explicit, judge, n - 1)
      + WarningsOf(selected[n - 1], results[n - 1], explicit, judge)
  }

  function ClearedUpTo(selected: seq<CheckConfig>, results: seq<CheckResult>, explicit: bool, judge: Option<Judge>,
                       n: nat): seq<string>
    requires n <= |selected| == |results|
  {
    if n == 0 then []
    else
      ClearedUpTo(selected, results, explicit, judge, n - 1)
      + (if Clears(selected[n - 1], results[n - 1], explicit, judge) then [results[n - 1].name] else [])
  }

  function Ids(selected: seq<CheckConfig>): seq<string> {
    seq(|selected|, i requires 0 <= i < |selected| => selected[i].id)
  }

  /** The bundle of one episode, from the results of its selected checks and the failures found elsewhere. */
  function Bundle(selected: seq<CheckConfig>, explicit: bool, results: seq<CheckResult>, judge: Option<Judge>,
                  elsewhere: seq<GateFailure>): EvidenceBundle
    requires |selected| == |results|
  {
    var failures := FailuresUpTo(elsewhere, selected, results, explicit, judge, |results|);
    EvidenceBundle(
      Ids(selected),
      results,
      failures,
      WarningsUpTo(selected, results, explicit, judge, |results|),
      ClearedUpTo(selected, results, explicit, judge, |results|),
      failures == [])
  }

  method CollectEvidence(selected: seq<CheckConfig>, explicit: bool, results: seq<CheckResult>, judge: Option<Judge>,
                         elsewhere: seq<GateFailure>)
    returns (bundle: EvidenceBundle)
    requires |selected| == |results|
    ensures bundle == Bundle(selected, explicit, results, judge, elsewhere)
  {
    var failures := elsewhere;
    var warnings: seq<Warning> := [];
    var cleared: seq<string> := [];
    for i := 0 to |results|
      invariant failures == FailuresUpTo(elsewhere, selected, results, explicit, judge, i)
      invariant warnings == WarningsUpTo(selected, results, explicit, judge, i)
      invariant cleared == ClearedUpTo(selected, results, explicit, judge, i)
    {
      var found, warned, clear := EvaluateCheck(selected[i], results[i], explicit, judge);
      failures, warnings := failures + found, warnings + warned;
      cleared := cleared + if clear then [results[i].name] else [];
    }
    bundle := EvidenceBundle(Ids(selected), results, failures, warnings, cleared, failures == []);
  }

  /** One turn of the evidence loop. */
  method EvaluateCheck(config: CheckConfig, check: CheckResult, explicit: bool, judge: Option<Judge>)
    returns (failures: seq<GateFailure>, warnings: seq<Warning>, cleared: bool)
    ensures failures == FailuresOf(config, check, explicit, judge)
    ensures warnings == WarningsOf(config, check, explicit, judge)
    ensures cleared == Clears(config, check, explicit, judge)
  {
    failures, warnings, cleared := [], [], false;
    if SideEffect(check.failureKind) {
      failures := [SideEffectRepeatedBy(check.name)];
    } else if check.workspaceMutated && !check.mutationRecovered {
      failures := [CheckFailed(check.name)];
    }
    if check.failureKind.SkippedInfra? {
      warnings := [
        Skipped(check.name, if check.skippedReason != "" then check.skippedReason else "infrastructure unavailable")];
      return;
    }
    if !explicit && !config.required {
      return;
    }
    if check.timedOut || InfrastructureKind(check.failureKind) {
      failures := failures + [InfrastructureUnavailableFor(check.name)];
    } else if check.exitCode != 0 {
      if judge.None? {
        failures := failures + [CheckFailed(check.name)];
        return;
      }
      var verdict := judge.value(config, check);
      if Given(verdict.warning) {
        warnings := [JudgeWarning(verdict.warning.value)];
      }
      if Given(verdict.failure) {
        failures := failures + [Judged(verdict.failure.value)];
      } else {
        cleared := true;
      }
    }
  }

  // --------------------------------------------------- the second notion

  /** The dictionary of results by name: the last one wins. */
  function ByName(results: seq<CheckResult>, n: nat): map<string, CheckResult>
    requires n <= |results|
  {
    if n == 0 then map[] else ByName(results, n - 1)[results[n - 1].name := results[n - 1]]
  }

  /** Whether one required check has a durable answer. */
  predicate Answered(bundle: EvidenceBundle, id: string) {
    var byName := ByName(bundle.checks, |bundle.checks|);
    id in byName &&
    var r := byName[id];
    || r.failureKind.SkippedInfra?
    || id in bundle.cleared
    || (r.exitCode == 0 && !r.timedOut && r.failureKind.Passed? && (r.workspaceMutated ==> r.mutationRecovered))
  }

  predicate RequiredChecksPassed(bundle: EvidenceBundle) {
    forall id :: id in bundle.requiredIds ==> Answered(bundle, id)
  }

  // ------------------------------------------------------- how they agree

  /** Results the check runner can produce for this selection. */
  predicate ResultsOf(selected: seq<CheckConfig>, results: seq<CheckResult>) {
    && |results| == |selected|
    && DistinctIds(selected)
    && forall i :: 0 <= i < |results| ==> results[i].name == selected[i].id && WellShaped(results[i])
  }

  lemma {:induction false} FailuresAppear(elsewhere: seq<GateFailure>, selected: seq<CheckConfig>,
                                          results: seq<CheckResult>, explicit: bool, judge: Option<Judge>, n: nat)
    requires n <= |selected| == |results|
    ensures FailuresUpTo(elsewhere, selected, results, explicit, judge, n) == []
       <==> elsewhere == [] && forall i :: 0 <= i < n ==> FailuresOf(selected[i], results[i], explicit, judge) == []
  {
    if n > 0 {
      FailuresAppear(elsewhere, selected, results, explicit, judge, n - 1);
    }
  }

  /** What makes one result contribute a failure: its kind and exit code, and whether it is asked for and excused. */
  predicate Contributes(c: CheckConfig, r: CheckResult, explicit: bool, judge: Option<Judge>, f: GateFailure) {
    var asked := explicit || c.required;
    var failed := r.failureKind.NonzeroExit? || (SideEffect(r.failureKind) && r.exitCode != 0 && !r.timedOut);
    match f
    case Gate(_) => false
    case SideEffectRepeatedBy(id) => id == r.name && SideEffect(r.failureKind)
    case InfrastructureUnavailableFor(id) =>
      id == r.name && asked && (r.timedOut || InfrastructureKind(r.failureKind))
    case CheckFailed(id) => id == r.name && asked && failed && judge.None?
    case Judged(code) => asked && failed && judge.Some? && judge.value(c, r).failure == Some(code) && code != ""
  }

  lemma ContributionMeans(c: CheckConfig, r: CheckResult, explicit: bool, judge: Option<Judge>, f: GateFailure)
    requires WellShaped(r)
    ensures f in FailuresOf(c, r, explicit, judge) <==> Contributes(c, r, explicit, judge, f)
  {
  }

  predicate AnyContributes(selected: seq<CheckConfig>, results: seq<CheckResult>, explicit: bool,
                           judge: Option<Judge>, n: nat, f: GateFailure)
    requires n <= |selected| == |results|
  {
    n > 0 &&
    (AnyContributes(selected, results, explicit, judge, n - 1, f) ||
     Contributes(selected[n - 1], results[n - 1], explicit, judge, f))
  }

  lemma {:induction false} AnyContributesMeans(selected: seq<CheckConfig>, results: seq<CheckResult>, explicit: bool,
                                               judge: Option<Judge>, n: nat, f: GateFailure)
    requires n <= |selected| == |results|
    ensures AnyContributes(selected, results, explicit, judge, n, f) <==>
            exists i :: 0 <= i < n && Contributes(selected[i], results[i], explicit, judge, f)
  {
    if n > 0 {
      AnyContributesMeans(selected, results, explicit, judge, n - 1, f);
    }
  }

  /** One more check adds what it contributes. */
  lemma OneMoreFailure(before: seq<GateFailure>, c: CheckConfig, r: CheckResult, explicit: bool, judge: Option<Judge>,
                       f: GateFailure)
    requires WellShaped(r)
    ensures f in before + FailuresOf(c, r, explicit, judge) <==>
            f in before || Contributes(c, r, explicit, judge, f)
  {
    ContributionMeans(c, r, explicit, judge, f);
  }

  lemma {:induction false} FailuresAreContributed(elsewhere: seq<GateFailure>, selected: seq<CheckConfig>,
                                                  results: seq<CheckResult>, explicit: bool, judge: Option<Judge>,
                                                  n: nat, f: GateFailure)
    requires n <= |selected| == |results| && forall i :: 0 <= i < n ==> WellShaped(results[i])
    ensures f in FailuresUpTo(elsewhere, selected, results, explicit, judge, n)
       <==> f in elsewhere || AnyContributes(selected, results, explicit, judge, n, f)
  {
    if n > 0 {
      FailuresAreContributed(elsewhere, selected, results, explicit, judge, n - 1, f);
      OneMoreFailure(FailuresUpTo(elsewhere, selected, results, explicit, judge, n - 1), selected[n - 1],
                     results[n - 1], explicit, judge, f);
    }
  }

  /** Each failure of a bundle was found elsewhere or contributed by one of the checks, and none is lost. */
  lemma FailureAppearsExactlyWhen(elsewhere: seq<GateFailure>, selected: seq<CheckConfig>, results: seq<CheckResult>,
                                  explicit: bool, judge: Option<Judge>, f: GateFailure)
    requires |selected| == |results| && forall i :: 0 <= i < |results| ==> WellShaped(results[i])
    ensures f in Bundle(selected, explicit, results, judge, elsewhere).failures <==>
            || f in elsewhere
            || exists i :: 0 <= i < |results| && Contributes(selected[i], results[i], explicit, judge, f)
  {
    FailuresAreContributed(elsewhere, selected, results, explicit, judge, |results|, f);
    AnyContributesMeans(selected, results, explicit, judge, |results|, f);
  }

  /** What makes one result contribute a warning: a skip, or a judge that has something to say. */
  predicate Warns(c: CheckConfig, r: CheckResult, explicit: bool, judge: Option<Judge>, w: Warning) {
    match w
    case Skipped(id, reason) =>
      && r.failureKind.SkippedInfra? && id == r.name
      && reason == if r.skippedReason != "" then r.skippedReason else "infrastructure unavailable"
    case JudgeWarning(text) =>
      && (explicit || c.required) && judge.Some?
      && (r.failureKind.NonzeroExit? || (SideEffect(r.failureKind) && r.exitCode != 0 && !r.timedOut))
      && judge.value(c, r).warning == Some(text) && text != ""
  }

  lemma {:induction false} WarningAppearsExactlyWhen(selected: seq<CheckConfig>, results: seq<CheckResult>,
                                                     explicit: bool, judge: Option<Judge>, n: nat, w: Warning)
    requires n <= |selected| == |results| && forall i :: 0 <= i < n ==> WellShaped(results[i])
    ensures w in WarningsUpTo(selected, results, explicit, judge, n)
       <==> exists i :: 0 <= i < n && Warns(selected[i], results[i], explicit, judge, w)
  {
    if n > 0 {
      WarningAppearsExactlyWhen(selected, results, explicit, judge, n - 1, w);
      assert w in WarningsOf(selected[n - 1], results[n - 1], explicit, judge) <==>
        Warns(selected[n - 1], results[n - 1], explicit, judge, w);
    }
  }

  /** A check is cleared exactly when it was asked for and failed plainly, and the judge had no failure to give. */
  lemma ClearsExactlyWhen(c: CheckConfig, r: CheckResult, explicit: bool, judge: Option<Judge>)
    requires WellShaped(r)
    ensures Clears(c, r, explicit, judge) <==>
            && (explicit || c.required) && judge.Some?
            && (r.failureKind.NonzeroExit? || (SideEffect(r.failureKind) && r.exitCode != 0 && !r.timedOut))
            && (judge.value(c, r).failure.None? || judge.value(c, r).failure.value == "")
  {
  }

  /** With distinct names, a check finds its own result, and is cleared only by it. */
  lemma {:induction false} FindsItself(selected: seq<CheckConfig>, results: seq<CheckResult>, explicit: bool,
                                       judge: Option<Judge>, i: nat, n: nat)
    requires i < n <= |results| == |selected|
    requires forall k :: 0 <= k < n && k != i ==> results[k].name != results[i].name
    ensures results[i].name in ByName(results, n) && ByName(results, n)[results[i].name] == results[i]
    ensures results[i].name in ClearedUpTo(selected, results, explicit, judge, n) <==>
      Clears(selected[i], results[i], explicit, judge)
  {
    if i == n - 1 {
      NotClearedBefore(selected, results, explicit, judge, results[i].name, i);
    } else {
      FindsItself(selected, results, explicit, judge, i, n - 1);
    }
  }

  lemma {:induction false} NotClearedBefore(selected: seq<CheckConfig>, results: seq<CheckResult>, explicit: bool,
                                            judge: Option<Judge>, name: string, n: nat)
    requires n <= |results| == |selected|
    requires forall k :: 0 <= k < n ==> results[k].name != name
    ensures name !in ClearedUpTo(selected, results, explicit, judge, n)
  {
    if n > 0 {
      NotClearedBefore(selected, results, explicit, judge, name, n - 1);
    }
  }

  /** The contribution of one check decides its own answer. */
  lemma AnsweredWhen(selected: seq<CheckConfig>, explicit: bool, results: seq<CheckResult>, judge: Option<Judge>,
                     elsewhere: seq<GateFailure>, i: nat)
    requires ResultsOf(selected, results) && i < |results|
    ensures var r := results[i];
            var answered := Answered(Bundle(selected, explicit, results, judge, elsewhere), selected[i].id);
            && (answered <==>
                r.failureKind.SkippedInfra? || r.failureKind.Passed? || Clears(selected[i], r, explicit, judge))
            && (FailuresOf(selected[i], r, explicit, judge) == [] && (explicit || selected[i].required) ==> answered)
            && (answered ==> (FailuresOf(selected[i], r, explicit, judge) != [] <==> SideEffect(r.failureKind)))
  {
    forall k | 0 <= k < |results| && k != i ensures results[k].name != results[i].name {
      assert selected[k].id != selected[i].id;
    }
    FindsItself(selected, results, explicit, judge, i, |results|);
    OneCheckAnswered(selected[i], results[i], explicit, judge);
  }

  lemma OneCheckAnswered(c: CheckConfig, r: CheckResult, explicit: bool, judge: Option<Judge>)
    requires WellShaped(r)
    ensures var answered := r.failureKind.SkippedInfra? || r.failureKind.Passed? || Clears(c, r, explicit, judge);
            && (FailuresOf(c, r, explicit, judge) == [] && (explicit || c.required) ==> answered)
            && (answered && FailuresOf(c, r, explicit, judge) != [] ==> SideEffect(r.failureKind))
            && (SideEffect(r.failureKind) ==> FailuresOf(c, r, explicit, judge) != [])
  {
  }

  /** A passed gate answers every required check, when the IDs are explicit or every selected check is required. */
  lemma PassedGateAnswersRequired(selected: seq<CheckConfig>, explicit: bool, results: seq<CheckResult>,
                                  judge: Option<Judge>, elsewhere: seq<GateFailure>)
    requires ResultsOf(selected, results)
    requires explicit || forall i :: 0 <= i < |selected| ==> selected[i].required
    ensures var bundle := Bundle(selected, explicit, results, judge, elsewhere);
            bundle.deterministicPassed ==> RequiredChecksPassed(bundle)
  {
    var bundle := Bundle(selected, explicit, results, judge, elsewhere);
    if bundle.deterministicPassed {
      FailuresAppear(elsewhere, selected, results, explicit, judge, |results|);
      forall id | id in bundle.requiredIds ensures Answered(bundle, id) {
        var i :| 0 <= i < |selected| && selected[i].id == id;
        AnsweredWhen(selected, explicit, results, judge, elsewhere, i);
      }
    }
  }

  /** What the check runner returns for a selection fits it. */
  lemma RunnerResultsFit(config: CheckCatalogue, ids: Option<seq<string>>, skip: map<string, string>,
                         results: seq<CheckResult>, attempts: seq<nat>)
    requires SelectChecks(config, ids).Success?
    requires CheckRunner.AllAnswered(SelectChecks(config, ids).value, skip, results, attempts)
    ensures ResultsOf(SelectChecks(config, ids).value, results)
  {
    var selected := SelectChecks(config, ids).value;
    SelectedChecksAreDistinct(config, ids);
    forall i | 0 <= i < |results| ensures results[i].name == selected[i].id && WellShaped(results[i]) {
      assert CheckRunner.Answers(selected[i], skip, results[i], attempts[i]);
    }
  }

  /**
   The whole pipeline with explicit IDs: whatever the catalogue, the processes, the
   skips, the retries and the judge were, a passed gate answers every requested ID.
   */
  lemma PassedRunAnswersEveryRequestedId(config: CheckCatalogue, ids: seq<string>, skip: map<string, string>,
                                         results: seq<CheckResult>, attempts: seq<nat>,
                                         judge: Option<Judge>, elsewhere: seq<GateFailure>)
    requires SelectChecks(config, Some(ids)).Success?
    requires CheckRunner.AllAnswered(SelectChecks(config, Some(ids)).value, skip, results, attempts)
    ensures var bundle := Bundle(SelectChecks(config, Some(ids)).value, true, results, judge, elsewhere);
            && bundle.requiredIds == ids
            && (bundle.deterministicPassed ==>
                  RequiredChecksPassed(bundle) && forall id :: id in ids ==> Answered(bundle, id))
  {
    var selected := SelectChecks(config, Some(ids)).value;
    var bundle := Bundle(selected, true, results, judge, elsewhere);
    assert WantedIds(config, Some(ids)) == ids;
    RunnerResultsFit(config, Some(ids), skip, results, attempts);
    PassedGateAnswersRequired(selected, true, results, judge, elsewhere);
    assert bundle.requiredIds == ids;
  }

  /** Conversely, when nothing failed outside the checks, only a repeated side effect separates the two notions. */
  lemma RequiredAnswersDecideGate(selected: seq<CheckConfig>, explicit: bool, results: seq<CheckResult>,
                                  judge: Option<Judge>)
    requires ResultsOf(selected, results)
    requires RequiredChecksPassed(Bundle(selected, explicit, results, judge, []))
    ensures Bundle(selected, explicit, results, judge, []).deterministicPassed
       <==> forall i :: 0 <= i < |results| ==> !SideEffect(results[i].failureKind)
  {
    var bundle := Bundle(selected, explicit, results, judge, []);
    FailuresAppear([], selected, results, explicit, judge, |results|);
    forall i | 0 <= i < |results|
      ensures FailuresOf(selected[i], results[i], explicit, judge) == [] <==> !SideEffect(results[i].failureKind)
    {
      assert selected[i].id == bundle.requiredIds[i];
      AnsweredWhen(selected, explicit, results, judge, [], i);
    }
  }

  function PlainResult(id: string, passed: bool): CheckResult {
    var exitCode, kind := if passed then 0 else 1, if passed then Passed else NonzeroExit;
    CheckResult(id, exitCode, false, kind, false, false, None, {}, 0, "")
  }

  /** A plain pass for every selected check except one plain failure. */
  function OneFailing(selected: seq<CheckConfig>, failing: nat): seq<CheckResult> {
    seq(|selected|, i requires 0 <= i < |selected| => PlainResult(selected[i].id, i != failing))
  }

  lemma PlainContribution(c: CheckConfig, passed: bool, judge: Option<Judge>)
    requires passed || !c.required
    ensures FailuresOf(c, PlainResult(c.id, passed), false, judge) == []
      && !Clears(c, PlainResult(c.id, passed), false, judge)
  {
  }

  lemma OneFailingIsPossible(selected: seq<CheckConfig>, failing: nat)
    requires DistinctIds(selected)
    ensures ResultsOf(selected, OneFailing(selected, failing))
  {
  }

  lemma UnrequiredFailureIsMissed(selected: seq<CheckConfig>, judge: Option<Judge>, failing: nat)
    requires DistinctIds(selected) && failing < |selected| && !selected[failing].required
    ensures ResultsOf(selected, OneFailing(selected, failing))
    ensures Bundle(selected, false, OneFailing(selected, failing), judge, []).deterministicPassed
    ensures !RequiredChecksPassed(Bundle(selected, false, OneFailing(selected, failing), judge, []))
  {
    OneFailingIsPossible(selected, failing);
    var results := OneFailing(selected, failing);
    var bundle := Bundle(selected, false, results, judge, []);
    assert bundle.deterministicPassed by {
      forall i | 0 <= i < |results| ensures FailuresOf(selected[i], results[i], false, judge) == [] {
        PlainContribution(selected[i], i != failing, judge);
      }
      FailuresAppear([], selected, results, false, judge, |results|);
    }
    assert !Answered(bundle, selected[failing].id) by {
      PlainContribution(selected[failing], false, judge);
      AnsweredWhen(selected, false, results, judge, [], failing);
    }
    assert bundle.requiredIds[failing] == selected[failing].id;
  }

  /**
   The exact condition.  Without explicit IDs the default list may select a check
   the catalogue does not require; its failure then closes neither the gate nor,
   as it should, answers the requirement.
   */
  lemma GateImpliesRequiredExactlyWhen(selected: seq<CheckConfig>, explicit: bool, judge: Option<Judge>)
    requires DistinctIds(selected)
    ensures (forall results | ResultsOf(selected, results) ::
               Bundle(selected, explicit, results, judge, []).deterministicPassed ==>
                   RequiredChecksPassed(Bundle(selected, explicit, results, judge, [])))
       <==> (explicit || forall i :: 0 <= i < |selected| ==> selected[i].required)
  {
    if explicit || forall i :: 0 <= i < |selected| ==> selected[i].required {
      forall results | ResultsOf(selected, results)
        ensures Bundle(selected, explicit, results, judge, []).deterministicPassed ==>
          RequiredChecksPassed(Bundle(selected, explicit, results, judge, []))
      {
        PassedGateAnswersRequired(selected, explicit, results, judge, []);
      }
    } else {
      var i :| 0 <= i < |selected| && !selected[i].required;
      UnrequiredFailureIsMissed(selected, judge, i);
    }
  }
}
