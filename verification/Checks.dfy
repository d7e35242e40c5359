/** The trusted check catalogue, and what one check can report. */
module Checks {
  import opened Common
  import opened CommitGraph

  datatype CheckConfig = CheckConfig(
    id: string,
    argv: seq<string>,
    cwd: string,
    timeoutSeconds: int,
    required: bool,
    preflightArgv: seq<string>,
    description: string,
    blocking: bool,
    junitXml: string)

  datatype CheckCatalogue = CheckCatalogue(checks: seq<CheckConfig>, defaultIds: seq<string>)

  datatype SelectionError = DuplicateIds | UnknownId

  /** The catalogue as a dictionary: the last definition of an ID wins. */
  function ById(checks: seq<CheckConfig>): (m: map<string, CheckConfig>)
    ensures forall id :: id in m ==> m[id].id == id && m[id] in checks
    ensures forall c :: c in checks ==> c.id in m
  {
    if checks == [] then map[]
    else
      var last := |checks| - 1;
      assert checks == checks[..last] + [checks[last]];
      ById(checks[..last])[checks[last].id := checks[last]]
  }

  /** A definition counts unless a later one has its ID. */
  lemma {:induction false} LastDefinitionWins(checks: seq<CheckConfig>, i: nat)
    requires i < |checks| && forall j :: i < j < |checks| ==> checks[j].id != checks[i].id
    ensures checks[i].id in ById(checks) && ById(checks)[checks[i].id] == checks[i]
    decreases |checks|
  {
    if i < |checks| - 1 {
      LastDefinitionWins(checks[..|checks| - 1], i);
    }
  }

  /** The IDs of the required checks, in catalogue order. */
  function RequiredIds(checks: seq<CheckConfig>): (ids: seq<string>)
    ensures forall id :: id in ids <==> exists c :: c in checks && c.required && c.id == id
  {
    if checks == [] then []
    else
      assert checks == [checks[0]] + checks[1..];
      (if checks[0].required then [checks[0].id] else []) + RequiredIds(checks[1..])
  }

  /** In catalogue order: the IDs of a longer catalogue are those of its parts. */
  lemma {:induction false} RequiredIdsOfConcat(a: seq<CheckConfig>, b: seq<CheckConfig>)
    ensures RequiredIds(a + b) == RequiredIds(a) + RequiredIds(b)
  {
    if a == [] {
      assert a + b == b;
    } else {
      assert (a + b)[0] == a[0] && (a + b)[1..] == a[1..] + b;
      RequiredIdsOfConcat(a[1..], b);
    }
  }

  function WantedIds(config: CheckCatalogue, ids: Option<seq<string>>): seq<string> {
    match ids
    case Some(explicit) => explicit
    case None => if config.defaultIds != [] then config.defaultIds else RequiredIds(config.checks)
  }

  /** The selected checks: one per wanted ID, in the wanted order, or a refusal. */
  function SelectChecks(config: CheckCatalogue, ids: Option<seq<string>>): (r: Result<seq<CheckConfig>, SelectionError>)
    ensures r.Success? <==>
      && Distinct(WantedIds(config, ids))
      && forall id :: id in WantedIds(config, ids) ==> exists c :: c in config.checks && c.id == id
    ensures r.Success? ==>
      && |r.value| == |WantedIds(config, ids)|
      && forall i :: 0 <= i < |r.value| ==> r.value[i].id == WantedIds(config, ids)[i] && r.value[i] in config.checks
  {
    var wanted := WantedIds(config, ids);
    var catalogue := ById(config.checks);
    if !Distinct(wanted) then Failure(DuplicateIds)
    else if exists id :: id in wanted && id !in catalogue then Failure(UnknownId)
    else Success(seq(|wanted|, i requires 0 <= i < |wanted| => catalogue[wanted[i]]))
  }

  /** What is selected: explicit IDs as given, else the configured default, else the required checks. */
  lemma SelectedInOrder(config: CheckCatalogue, ids: Option<seq<string>>)
    requires SelectChecks(config, ids).Success?
    ensures var checks := SelectChecks(config, ids).value;
            var order := seq(|checks|, i requires 0 <= i < |checks| => checks[i].id);
            && (ids.Some? ==> order == ids.value)
            && (ids.None? && config.defaultIds != [] ==> order == config.defaultIds)
            && (ids.None? && config.defaultIds == [] ==> order == RequiredIds(config.checks))
  {
  }

  predicate DistinctIds(checks: seq<CheckConfig>) {
    forall i, j :: 0 <= i < j < |checks| ==> checks[i].id != checks[j].id
  }

  lemma SelectedChecksAreDistinct(config: CheckCatalogue, ids: Option<seq<string>>)
    requires SelectChecks(config, ids).Success?
    ensures DistinctIds(SelectChecks(config, ids).value)
  {
    var checks := SelectChecks(config, ids).value;
    var wanted := WantedIds(config, ids);
    forall i, j | 0 <= i < j < |checks| ensures checks[i].id != checks[j].id {
      assert checks[i].id == wanted[i] && checks[j].id == wanted[j];
    }
  }

  // ------------------------------------------------------------------ results

  datatype FailureKind =
    | Passed | SkippedInfra | Timeout | MissingExecutable | ProcessStartFailed | SignalTerminated
    | InfrastructureUnavailable | NonzeroExit | SideEffectRepeated | SideEffectUnstable

  datatype CheckResult = CheckResult(
    name: string,
    exitCode: int,
    timedOut: bool,
    failureKind: FailureKind,
    workspaceMutated: bool,
    mutationRecovered: bool,
    mutatedTree: Option<Tree>,
    mutatedPaths: set<Path>,
    infrastructureRetries: nat,
    skippedReason: string)

  predicate SideEffect(kind: FailureKind) {
    kind.SideEffectRepeated? || kind.SideEffectUnstable?
  }

  /** The failures a retry of the infrastructure may answer. */
  predicate InfrastructureKind(kind: FailureKind) {
    kind.Timeout? || kind.MissingExecutable? || kind.ProcessStartFailed? || kind.SignalTerminated?
        || kind.InfrastructureUnavailable?
  }

  /** How the fields of a result of the check runner hang together. */
  predicate WellShaped(r: CheckResult) {
    && r.mutationRecovered == r.workspaceMutated
    && (SideEffect(r.failureKind) ==> r.workspaceMutated)
    && (!SideEffect(r.failureKind) ==> (r.timedOut <==> r.failureKind.Timeout?))
    && (r.failureKind.Passed? ==> r.exitCode == 0)
    && (r.failureKind.SkippedInfra? ==> r.exitCode == -1 && !r.workspaceMutated)
    && (r.failureKind.NonzeroExit? || r.failureKind.InfrastructureUnavailable? ==> r.exitCode > 0)
    && (r.failureKind.SignalTerminated? || r.failureKind.MissingExecutable? || r.failureKind.ProcessStartFailed? ==>
         r.exitCode < 0)
    && (r.timedOut ==> r.exitCode == 124)
  }
}
