/**
 The deterministic checks, run against an adversarial environment.

 A check process may leave any index, files, refs, HEAD, worktree list and new
 commits behind, whenever it runs.  The runner restores the candidate after each
 such run, retries once after a first mutation, and asks a retry policy after an
 infrastructure failure; the policy's answers are the finite list `answers`.
 */
module CheckRunner {
  import opened Common
  import opened CommitGraph
  import opened Repository
  import opened Checks

  datatype ProcessEnd =
    | CouldNotStart(executableMissing: bool)
    | Ended(exitCode: int, timedOut: bool, reportsOutage: bool)

  /** Git state as a process leaves it; commits it invents cannot replace existing ones. */
  datatype GitChange = GitChange(commits: Graph, refs: map<Ref, Sha>, head: Head, worktrees: map<string, Option<Ref>>)

  datatype Effect = Effect(index: Tree, files: Tree, git: Option<GitChange>, end: ProcessEnd)

  datatype RunError =
    | Selection(error: SelectionError)
    | BadDirectory
    | Unreadable
    | GitViolation
    | RollbackFailed(run: nat)

  /** The ways one contained run can stop everything. */
  predicate Stops(e: RunError) {
    e.Unreadable? || e.GitViolation? || e.RollbackFailed?
  }

  /** The exact candidate to come back to, and the tree of its HEAD. */
  datatype Ground = Ground(snapshot: Snapshot, headTree: Tree)

  /** What identifies one mutation, to tell a repeated one from an unstable one. */
  datatype Signature = Signature(index: Tree, candidate: Tree, paths: set<Path>, status: seq<string>)

  /** What the harness sees around one contained run. */
  datatype Observation = Unchanged | Mutated(signature: Signature) | Raised(error: RunError)

  /** A preflight that mutated twice, or did not answer yes. */
  datatype PreflightFailure = PreflightSideEffect(check: string) | PreflightUnavailable(check: string)

  function Answered(id: string, end: ProcessEnd): Option<PreflightFailure> {
    if end.Ended? && end.exitCode == 0 && !end.timedOut then None else Some(PreflightUnavailable(id))
  }

  /** How one check came to rest. */
  datatype Settled = Settled(run: nat, end: ProcessEnd, kind: FailureKind, mutatedTree: Option<Tree>,
                             mutatedPaths: set<Path>, infraRetries: nat)

  function KindOf(end: ProcessEnd): FailureKind {
    match end
    case CouldNotStart(missing) => if missing then MissingExecutable else ProcessStartFailed
    case Ended(code, timedOut, outage) =>
      if timedOut then Timeout
      else if code < 0 then SignalTerminated
      else if code == 0 then Passed
      else if outage then InfrastructureUnavailable
      else NonzeroExit
  }

  /** A process that ended for a reason outside the candidate: only then is the retry policy asked. */
  predicate InfrastructureEnd(end: ProcessEnd) {
    match end
    case CouldNotStart(_) => true
    case Ended(code, timedOut, outage) => timedOut || code < 0 || (code > 0 && outage)
  }

  /** What each kind says about the process. */
  lemma KindTellsTheEnd(end: ProcessEnd)
    ensures InfrastructureKind(KindOf(end)) <==> InfrastructureEnd(end)
    ensures KindOf(end) == Passed <==> end.Ended? && !end.timedOut && end.exitCode == 0
    ensures KindOf(end) == NonzeroExit <==> end.Ended? && !end.timedOut && end.exitCode > 0 && !end.reportsOutage
    ensures KindOf(end) == Timeout <==> end.Ended? && end.timedOut
    ensures KindOf(end) == SignalTerminated <==> end.Ended? && !end.timedOut && end.exitCode < 0
    ensures KindOf(end) == MissingExecutable <==> end == CouldNotStart(true)
    ensures KindOf(end) == ProcessStartFailed <==> end == CouldNotStart(false)
    ensures !SideEffect(KindOf(end)) && KindOf(end) != SkippedInfra
    ensures ExitCode(end) == if KindOf(end) == Timeout then 124 else if end.Ended? then end.exitCode else -1
    ensures forall id :: Answered(id, end) == (if KindOf(end) == Passed then None else Some(PreflightUnavailable(id)))
  {
  }

  function ExitCode(end: ProcessEnd): int {
    if end.CouldNotStart? then -1 else if end.timedOut then 124 else end.exitCode
  }

  predicate TimedOut(end: ProcessEnd) {
    end.Ended? && end.timedOut
  }

  function SkippedResult(check: CheckConfig, reason: string): CheckResult {
    CheckResult(check.id, -1, false, SkippedInfra, false, false, None, {}, 0, reason)
  }

  /** A result tells how its last process ended, unless a second mutation overrides the verdict. */
  predicate Reports(end: ProcessEnd, r: CheckResult) {
    && r.exitCode == ExitCode(end)
    && r.timedOut == TimedOut(end)
    && (r.failureKind == KindOf(end) || SideEffect(r.failureKind))
  }

  function Finished(check: CheckConfig, s: Settled): CheckResult {
    CheckResult(check.id, ExitCode(s.end), TimedOut(s.end), s.kind, s.mutatedTree.Some?, s.mutatedTree.Some?,
        s.mutatedTree, s.mutatedPaths, s.infraRetries, "")
  }

  lemma FinishedAnswers(check: CheckConfig, s: Settled, attempts: nat)
    requires s.kind == KindOf(s.end) || (SideEffect(s.kind) && s.mutatedTree.Some?)
    requires attempts == s.infraRetries + if s.mutatedTree.Some? then 2 else 1
    ensures Reports(s.end, Finished(check, s)) && Answers(check, map[], Finished(check, s), attempts)
  {
  }

  function Sum(xs: seq<nat>): nat {
    if xs == [] then 0 else Sum(xs[..|xs| - 1]) + xs[|xs| - 1]
  }

  // ------------------------------------------------------- what runs come to

  /** The policy said yes each time it was asked. */
  predicate Granted(answers: seq<bool>, from: nat, to: nat) {
    from <= to <= |answers| && forall i :: from <= i < to ==> answers[i]
  }

  /**
   What each run of a script does, told against one ground: how its process ended,
   whether it mutates, what then identifies the mutation, and whether it can be undone.
   */
  datatype Runs = Runs(end: nat -> ProcessEnd, mutates: nat -> bool, signature: nat -> Signature,
                       undoable: nat -> bool) {
    predicate LeaveTheSame(j: nat, k: nat) {
      signature(j).index == signature(k).index && signature(j).candidate == signature(k).candidate
    }

    ghost predicate AllUndoable(from: nat, to: nat) {
      forall k :: from <= k < to ==> undoable(k)
    }

    /** `first` is the only run from `from` to `to` that mutates, if any does. */
    ghost predicate OnlyMutation(from: nat, to: nat, first: Option<nat>) {
      && (first.Some? ==> from <= first.value < to && mutates(first.value))
      && (forall k :: from <= k < to && mutates(k) ==> first == Some(k))
    }

    /** The candidate that the last mutating run before `to` left, if any mutated. */
    function TreeLeftBy(from: nat, to: nat): Option<Tree> {
      if to <= from then None
      else if mutates(to - 1) then Some(signature(to - 1).candidate)
      else TreeLeftBy(from, to - 1)
    }

    /** All paths that some run before `to` changed. */
    function PathsLeftBy(from: nat, to: nat): set<Path> {
      if to <= from then {} else PathsLeftBy(from, to - 1) + if mutates(to - 1) then signature(to - 1).paths else {}
    }

    /** Each of these runs had a reason to be repeated: it mutated, or it failed for a reason outside the candidate. */
    ghost predicate RepeatsMeant(from: nat, to: nat) {
      forall k :: from <= k < to ==> mutates(k) || InfrastructureEnd(end(k))
    }

    /** The verdict on the side effects of the runs `from` to `last`: one more chance, then the last run decides. */
    ghost predicate SideEffectsTold(from: nat, last: nat, kind: FailureKind, mutated: bool) {
      && from <= last
      && (SideEffect(kind) <==> mutates(last))
      && (mutated <==> exists k :: from <= k <= last && mutates(k))
      && (forall k :: from <= k < last && mutates(k) && mutates(last) ==>
            (kind.SideEffectRepeated? <==> LeaveTheSame(k, last)))
    }

    /**
     The policy answered yes to each repeat without a mutation, and nothing else was asked
     but the last run, which it refused or could no longer answer.
     */
    ghost predicate AnswersTold(last: nat, answers: seq<bool>, used: nat, retries: nat, usedAfter: nat) {
      && Granted(answers, used, used + retries) && usedAfter <= |answers|
      && (if mutates(last) || !InfrastructureEnd(end(last)) then usedAfter == used + retries
          else
            || usedAfter == used + retries == |answers|
            || (usedAfter == used + retries + 1 && !answers[used + retries]))
    }

    /** What the result of one check says about its runs, from `from` to `last`. */
    ghost predicate CheckTold(from: nat, last: nat, r: CheckResult, answers: seq<bool>, used: nat, usedAfter: nat) {
      && Reports(end(last), r)
      && SideEffectsTold(from, last, r.failureKind, r.workspaceMutated)
      && r.mutatedTree == TreeLeftBy(from, last + 1) && r.mutatedPaths == PathsLeftBy(from, last + 1)
      && RepeatsMeant(from, last)
      && AnswersTold(last, answers, used, r.infrastructureRetries, usedAfter)
    }

    /** The same for how a check came to rest. */
    ghost predicate SettledTold(from: nat, s: Settled, answers: seq<bool>, used: nat, usedAfter: nat) {
      && s.end == end(s.run)
      && (s.kind == KindOf(s.end) || SideEffect(s.kind))
      && SideEffectsTold(from, s.run, s.kind, s.mutatedTree.Some?)
      && s.mutatedTree == TreeLeftBy(from, s.run + 1) && s.mutatedPaths == PathsLeftBy(from, s.run + 1)
      && RepeatsMeant(from, s.run)
      && AnswersTold(s.run, answers, used, s.infraRetries, usedAfter)
    }

    /**
     What one preflight that ran from `from` to `to` says: one more chance after a mutation,
     then the last run decides.
     */
    ghost predicate PreflightTold(from: nat, to: nat, id: string, verdict: Option<PreflightFailure>) {
      if !mutates(from) then to == from + 1 && verdict == Answered(id, end(from))
      else
        && to == from + 2
        && verdict == if mutates(from + 1) then Some(PreflightSideEffect(id)) else Answered(id, end(from + 1))
    }
  }

  /** Where the repetition of one check stands: the first mutation, what was collected, the retries and answers used. */
  datatype Repeating = Repeating(prior: Option<Signature>, tree: Option<Tree>, paths: set<Path>, retries: nat,
                                 usedAfter: nat)

  /** What one more run makes of it: everything stops, the check is settled, or it runs again. */
  datatype Turn = Stop(error: RunError) | Rest(settled: Settled, usedAfter: nat) | Again(state: Repeating)

  /** What is known while the runs from `from` to `to` of one check are repeated. */
  ghost predicate Underway(runs: Runs, from: nat, to: nat, first: Option<nat>, at: Repeating, answers: seq<bool>,
                           used: nat) {
    && from <= to && runs.AllUndoable(from, to) && runs.RepeatsMeant(from, to) && runs.OnlyMutation(from, to, first)
    && at.prior == (if first.Some? then Some(runs.signature(first.value)) else None)
    && (at.tree.Some? <==> first.Some?)
    && at.tree == runs.TreeLeftBy(from, to) && at.paths == runs.PathsLeftBy(from, to)
    && at.usedAfter == used + at.retries && Granted(answers, used, at.usedAfter)
    && to == from + at.retries + if first.Some? then 1 else 0
  }

  /** What is known when the last run is over. */
  ghost predicate AtRest(runs: Runs, from: nat, to: nat, s: Settled, answers: seq<bool>, used: nat, usedAfter: nat) {
    && runs.SettledTold(from, s, answers, used, usedAfter) && runs.AllUndoable(from, to)
    && to == s.run + 1 == from + s.infraRetries + if s.mutatedTree.Some? then 2 else 1
  }

  lemma OneMoreRun(runs: Runs, from: nat, run: nat, next: nat)
    requires from <= run && next == run + 1
    ensures runs.TreeLeftBy(from, next)
      == if runs.mutates(run) then Some(runs.signature(run).candidate) else runs.TreeLeftBy(from, run)
    ensures runs.PathsLeftBy(from, next)
      == runs.PathsLeftBy(from, run) + if runs.mutates(run) then runs.signature(run).paths else {}
  {
  }

  lemma FirstMutation(runs: Runs, from: nat, run: nat, next: nat, at: Repeating, answers: seq<bool>, used: nat)
    requires Underway(runs, from, run, None, at, answers, used) && next == run + 1
    requires runs.undoable(run) && runs.mutates(run)
    ensures var signature := runs.signature(run);
            Underway(runs, from, next, Some(run),
                     at.(prior := Some(signature), tree := Some(signature.candidate),
                     paths := at.paths + signature.paths), answers, used)
  {
    OneMoreRun(runs, from, run, next);
  }

  lemma Retried(runs: Runs, from: nat, run: nat, next: nat, first: Option<nat>, at: Repeating, answers: seq<bool>,
                used: nat)
    requires Underway(runs, from, run, first, at, answers, used) && next == run + 1
    requires runs.undoable(run) && !runs.mutates(run) && InfrastructureKind(KindOf(runs.end(run)))
    requires at.usedAfter < |answers| && answers[at.usedAfter]
    ensures Underway(runs, from, next, first, at.(retries := at.retries + 1, usedAfter := at.usedAfter + 1), answers,
                     used)
  {
    OneMoreRun(runs, from, run, next);
    KindTellsTheEnd(runs.end(run));
  }

  /** A check comes to rest at its second mutation, */
  lemma MutatedAgain(runs: Runs, from: nat, run: nat, next: nat, first: nat, at: Repeating, answers: seq<bool>,
                     used: nat)
    requires Underway(runs, from, run, Some(first), at, answers, used) && next == run + 1
    requires runs.undoable(run) && runs.mutates(run)
    ensures var signature := runs.signature(run);
            var kind := if runs.LeaveTheSame(first, run) then SideEffectRepeated else SideEffectUnstable;
            AtRest(runs, from, next, Settled(run, runs.end(run), kind, Some(signature.candidate),
                   at.paths + signature.paths, at.retries), answers, used, at.usedAfter)
  {
    OneMoreRun(runs, from, run, next);
  }

  /** or at a run that changed nothing and is not to be repeated. */
  lemma ComesToRest(runs: Runs, from: nat, run: nat, next: nat, first: Option<nat>, at: Repeating, answers: seq<bool>,
                    used: nat, usedAfter: nat)
    requires Underway(runs, from, run, first, at, answers, used) && next == run + 1
    requires runs.undoable(run) && !runs.mutates(run)
    requires if InfrastructureKind(KindOf(runs.end(run))) && at.usedAfter < |answers| then
               usedAfter == at.usedAfter + 1 && !answers[at.usedAfter]
             else usedAfter == at.usedAfter
    ensures AtRest(runs, from, next, Settled(run, runs.end(run), KindOf(runs.end(run)), at.tree, at.paths, at.retries),
                   answers, used, usedAfter)
  {
    OneMoreRun(runs, from, run, next);
    KindTellsTheEnd(runs.end(run));
  }

  lemma SettledIsTold(runs: Runs, from: nat, check: CheckConfig, s: Settled, answers: seq<bool>, used: nat,
                      usedAfter: nat)
    requires runs.SettledTold(from, s, answers, used, usedAfter)
    ensures runs.CheckTold(from, s.run, Finished(check, s), answers, used, usedAfter)
  {
  }

  // ----------------------------------------------------- the runs of all checks

  /** The runs of one check, `last` being its last one, and the answers it used. */
  datatype Trace = Trace(from: nat, last: nat, to: nat, used: nat, usedAfter: nat)

  /** Where the runs of check `i` begin. */
  function RunsBefore(traces: seq<Trace>, i: nat, from: nat): nat
    requires i <= |traces|
  {
    if i == 0 then from else traces[i - 1].to
  }

  function UsedBefore(traces: seq<Trace>, i: nat): nat
    requires i <= |traces|
  {
    if i == 0 then 0 else traces[i - 1].usedAfter
  }

  predicate Skips(skip: map<string, string>, id: string) {
    id in skip && skip[id] != ""
  }

  /** Whether `told` holds of each result so far and its trace, and the traces follow on each other. */
  ghost predicate TracedBy(told: (CheckConfig, CheckResult, Trace) -> bool, selected: seq<CheckConfig>,
                           results: seq<CheckResult>, traces: seq<Trace>, from: nat) {
    && |results| == |traces| <= |selected|
    && (forall i :: 0 <= i < |traces| ==> told(selected[i], results[i], traces[i]))
    && (forall i :: 0 <= i < |traces| ==>
         traces[i].from == RunsBefore(traces, i, from) && traces[i].used == UsedBefore(traces, i))
  }

  lemma OneMoreTraced(told: (CheckConfig, CheckResult, Trace) -> bool, selected: seq<CheckConfig>,
                      results: seq<CheckResult>, traces: seq<Trace>, from: nat, r: CheckResult, t: Trace)
    requires TracedBy(told, selected, results, traces, from) && |traces| < |selected|
    requires told(selected[|traces|], r, t)
    requires t.from == RunsBefore(traces, |traces|, from) && t.used == UsedBefore(traces, |traces|)
    ensures TracedBy(told, selected, results + [r], traces + [t], from)
  {
  }

  /** What a result says of its trace: made up for a skipped check, otherwise true of its own runs. */
  ghost function Tells(runs: Option<Runs>, skip: map<string, string>, answers: seq<bool>)
    : (CheckConfig, CheckResult, Trace) -> bool
  {
    (c: CheckConfig, r: CheckResult, t: Trace) =>
      if Skips(skip, c.id) then t.from == t.to && t.used == t.usedAfter && r == SkippedResult(c, skip[c.id])
      else
        && runs.Some? && t.to == t.last + 1
        && runs.value.CheckTold(t.from, t.last, r, answers, t.used, t.usedAfter)
  }

  /**
   What a reader of the results may rely on: a check passed when its last run ended with a zero exit and
   an unchanged candidate, and a plain failure is final, however many retries the policy would grant.
   */
  lemma TracedResultsMean(runs: Option<Runs>, selected: seq<CheckConfig>, skip: map<string, string>,
                          answers: seq<bool>, results: seq<CheckResult>, traces: seq<Trace>, from: nat, i: nat)
    requires TracedBy(Tells(runs, skip, answers), selected, results, traces, from)
    requires i < |traces| && !Skips(skip, selected[i].id)
    ensures runs.Some? && traces[i].from <= traces[i].last
    ensures var end := runs.value.end(traces[i].last);
            results[i].failureKind.Passed? <==>
              end.Ended? && !end.timedOut && end.exitCode == 0 && !runs.value.mutates(traces[i].last)
    ensures forall k ::
      traces[i].from <= k <= traces[i].last && !runs.value.mutates(k) && !InfrastructureEnd(runs.value.end(k)) ==>
      k == traces[i].last && results[i].failureKind == KindOf(runs.value.end(k))
  {
    var t := traces[i];
    assert Tells(runs, skip, answers)(selected[i], results[i], t);
    KindTellsTheEnd(runs.value.end(t.last));
    assert runs.value.RepeatsMeant(t.from, t.last);
  }

  // ----------------------------------------------------------- the check runner

  /** The snapshot a run leaves, if it leaves refs and HEAD alone. */
  ghost function LeftBehind(repo: Repository, g: Ground, effect: Effect): Snapshot {
    var candidate := CandidateTree(repo.ignored, effect.index, effect.files);
    g.snapshot.(
      indexTree := effect.index,
      candidateTree := candidate,
      status := repo.statusRecords(g.headTree, effect.index, candidate))
  }

  ghost function SignatureOf(g: Ground, left: Snapshot): Signature {
    Signature(left.indexTree, left.candidateTree, ChangedPaths(g.snapshot, left), left.status)
  }

  /** Every name that must be listed or unlinked to come back to the ground is one the harness accepts. */
  ghost predicate CanBeUndone(repo: Repository, g: Ground, left: Snapshot) {
    CanOverwrite(repo.guard, g.snapshot.candidateTree, ChangedPaths(g.snapshot, left))
  }

  /** The runs of a script, told against one ground. */
  ghost function RunsOf(repo: Repository, script: nat -> Effect, g: Ground): Runs {
    Runs(
      (k: nat) => script(k).end,
      (k: nat) =>
        || script(k).index != g.snapshot.indexTree
        || LeftBehind(repo, g, script(k)).candidateTree != g.snapshot.candidateTree,
      (k: nat) => SignatureOf(g, LeftBehind(repo, g, script(k))),
      (k: nat) => CanBeUndone(repo, g, LeftBehind(repo, g, script(k))))
  }

  class ProcessHost {
    const repo: Repository
    const script: nat -> Effect
    // How many check processes ran so far; run `k` does what `script(k)` says.
    var executed: nat

    // Whether the working directory of a check is a directory inside the worktree.
    const resolves: CheckConfig -> bool
    // `RunsOf` as a value, tied to it by `Valid`, so that the loops need not look inside it.
    ghost const runs: Ground -> Runs

    constructor (repo: Repository, script: nat -> Effect, resolves: CheckConfig -> bool)
      ensures Valid() && this.repo == repo && this.script == script && this.resolves == resolves && executed == 0
    {
      this.repo, this.script, this.resolves, executed := repo, script, resolves, 0;
      runs := (g: Ground) => RunsOf(repo, script, g);
    }

    /** `runs` tells the script. */
    ghost predicate Valid() {
      forall g {:trigger RunsOf(repo, script, g)} :: runs(g) == RunsOf(repo, script, g)
    }

    ghost function GroundNow(): Option<Ground>
      reads repo
    {
      match repo.TakeSnapshot()
      case None => None
      case Some(snapshot) => Some(Ground(snapshot, repo.commits[snapshot.head].tree))
    }

    ghost function RunsNow(): Option<Runs>
      reads repo
    {
      if GroundNow().Some? then Some(runs(GroundNow().value)) else None
    }

    /** The candidate that run `k` leaves. */
    function CandidateLeft(k: nat): Tree {
      CandidateTree(repo.ignored, script(k).index, script(k).files)
    }

    /** The Git state after run `k`, started now: HEAD names a commit. */
    ghost predicate HeadReadableAfter(k: nat)
      reads repo
    {
      match script(k).git
      case None => repo.CurrentHead().Some?
      case Some(git) => HeadOf(git.commits + repo.commits, git.refs, git.head).Some?
    }

    /** The Git state after run `k`, started now: HEAD, branch names and worktrees are those of the ground. */
    ghost predicate OwnershipKeptBy(g: Ground, k: nat)
      reads repo
    {
      script(k).git.Some? ==>
        var git := script(k).git.value;
        && HeadOf(git.commits + repo.commits, git.refs, git.head) == Some(g.snapshot.head)
        && RefOf(git.head) == g.snapshot.headRef
        && BranchesOf(git.refs) == g.snapshot.branches && git.worktrees.Keys == g.snapshot.worktrees
    }

    /** Run `k` touches no refs, HEAD, worktrees or commits, and can be undone. */
    ghost predicate Harmless(g: Ground, k: nat) {
      script(k).git.None? && runs(g).undoable(k)
    }

    ghost predicate EveryRunIsHarmless()
      reads repo
    {
      GroundNow().Some? && forall k :: Harmless(GroundNow().value, k)
    }

    /** What `runs` says, in terms of the effect of run `k`. */
    lemma RunsMean(g: Ground, k: nat)
      requires Valid()
      ensures runs(g).end(k) == script(k).end
      ensures runs(g).mutates(k) <==>
        script(k).index != g.snapshot.indexTree || CandidateLeft(k) != g.snapshot.candidateTree
      ensures runs(g).signature(k) == SignatureOf(g, LeftBehind(repo, g, script(k)))
      ensures runs(g).signature(k).index == script(k).index && runs(g).signature(k).candidate == CandidateLeft(k)
      ensures runs(g).undoable(k) <==> CanBeUndone(repo, g, LeftBehind(repo, g, script(k)))
    {
      assert runs(g) == RunsOf(repo, script, g);
    }

    lemma RunEnds(g: Ground, k: nat)
      requires Valid()
      ensures runs(g).end(k) == script(k).end
    {
      RunsMean(g, k);
    }

    /** A run that leaves the snapshot as it was did not mutate, and there is nothing to undo. */
    lemma NothingToUndo(g: Ground, k: nat)
      requires Valid() && LeftBehind(repo, g, script(k)) == g.snapshot
      ensures !runs(g).mutates(k) && runs(g).undoable(k)
    {
      RunsMean(g, k);
      assert ChangedPaths(g.snapshot, g.snapshot) == {};
    }

    /** A run that leaves another one on the same HEAD mutated. */
    lemma SomethingToUndo(g: Ground, k: nat, left: Snapshot)
      requires Valid() && left == LeftBehind(repo, g, script(k)) != g.snapshot
      requires g.snapshot.status == repo.statusRecords(g.headTree, g.snapshot.indexTree, g.snapshot.candidateTree)
      ensures runs(g).mutates(k)
      ensures runs(g).signature(k)
        == Signature(left.indexTree, left.candidateTree, ChangedPaths(g.snapshot, left), left.status)
      ensures runs(g).undoable(k) <==>
        CanOverwrite(repo.guard, g.snapshot.candidateTree, ChangedPaths(g.snapshot, left))
    {
      RunsMean(g, k);
    }

    /** Two mutations have one signature exactly when they leave the same index and candidate. */
    lemma SignaturesTellApart(g: Ground, j: nat, k: nat)
      requires Valid()
      ensures runs(g).signature(j) == runs(g).signature(k) <==>
        script(j).index == script(k).index && CandidateLeft(j) == CandidateLeft(k)
      ensures runs(g).signature(j) == runs(g).signature(k) <==> runs(g).LeaveTheSame(j, k)
    {
      RunsMean(g, j);
      RunsMean(g, k);
    }

    /** A run that leaves a new file with an unsafe name, such as `a:b`, is not undone. */
    lemma UnsafeNewFileIsNotUndone(g: Ground, k: nat, path: Path)
      requires Valid() && path in CandidateLeft(k) && path !in g.snapshot.candidateTree && !repo.guard.safe(path)
      ensures !runs(g).undoable(k)
    {
      RunsMean(g, k);
      UnsafeNewFileBlocksRestore(repo.guard, g.snapshot, LeftBehind(repo, g, script(k)), path);
    }

    /** With the guard of the harness, such a file is one whose name starts like a drive. */
    lemma DriveFileIsNotUndone(g: Ground, k: nat, name: Path)
      requires Valid() && repo.guard == HARNESS_GUARD && ListedName(name) && |name| >= 2 && name[1] == ':'
      requires name in CandidateLeft(k) && name !in g.snapshot.candidateTree
      ensures !runs(g).undoable(k)
    {
      GuardRefusesDrives(name);
      UnsafeNewFileIsNotUndone(g, k, name);
    }

    method RunBounded() returns (end: ProcessEnd)
      modifies this`executed, repo
      ensures executed == old(executed) + 1 && end == script(old(executed)).end
      ensures repo.index == script(old(executed)).index && repo.files == script(old(executed)).files
      ensures forall c :: c in old(repo.commits) ==> c in repo.commits && repo.commits[c] == old(repo.commits)[c]
      ensures script(old(executed)).git.None? ==>
        && repo.commits == old(repo.commits) && repo.refs == old(repo.refs)
        && repo.head == old(repo.head) && repo.worktrees == old(repo.worktrees)
      ensures script(old(executed)).git.Some? ==>
        && repo.commits == script(old(executed)).git.value.commits + old(repo.commits)
        && repo.refs == script(old(executed)).git.value.refs && repo.head == script(old(executed)).git.value.head
        && repo.worktrees == script(old(executed)).git.value.worktrees
    {
      var effect := script(executed);
      executed := executed + 1;
      repo.index, repo.files := effect.index, effect.files;
      if effect.git.Some? {
        var git := effect.git.value;
        repo.commits, repo.refs, repo.head, repo.worktrees :=
            git.commits + repo.commits, git.refs, git.head, git.worktrees;
      }
      end := effect.end;
    }

    /**
     One run of a check process, contained: a mutation of the candidate is undone
     before returning.  It is refused exactly when HEAD is unreadable before or after
     it, when it changed the ownership, or when it left a name that cannot be listed
     or unlinked; that failed rollback has put the index back.  Where HEAD is
     unreadable to begin with, nothing runs.
     */
    method RunContained() returns (end: ProcessEnd, observed: Observation)
      requires Valid()
      modifies this`executed, repo
      ensures old(GroundNow()).None? ==> observed == Raised(Unreadable) && executed == old(executed)
      ensures old(GroundNow()).Some? ==>
        executed == old(executed) + 1 && end == runs(old(GroundNow()).value).end(old(executed))
      ensures !observed.Raised? ==> GroundNow() == old(GroundNow())
      ensures !observed.Raised? ==> (observed.Mutated? <==> runs(old(GroundNow()).value).mutates(old(executed)))
      ensures !observed.Raised? ==> runs(old(GroundNow()).value).undoable(old(executed))
      ensures observed.Mutated? ==> observed.signature == runs(old(GroundNow()).value).signature(old(executed))
      ensures observed.Raised? ==> Stops(observed.error)
      ensures observed == Raised(Unreadable) <==> old(GroundNow()).None? || !old(HeadReadableAfter(executed))
      ensures observed == Raised(GitViolation) <==>
        && old(GroundNow()).Some? && old(HeadReadableAfter(executed))
        && !old(OwnershipKeptBy(GroundNow().value, executed))
      ensures observed.Raised? && observed.error.RollbackFailed? <==>
        && old(GroundNow()).Some? && old(OwnershipKeptBy(GroundNow().value, executed))
        && !runs(old(GroundNow()).value).undoable(old(executed))
      ensures observed.Raised? && observed.error.RollbackFailed? ==>
        observed.error.run == old(executed) && repo.index == old(repo.index)
      ensures old(GroundNow()).Some? && Harmless(old(GroundNow()).value, old(executed)) ==> !observed.Raised?
    {
      var readable := repo.TakeSnapshot();
      if readable.None? {
        return CouldNotStart(false), Raised(Unreadable);
      }
      var before := readable.value;
      ghost var g, run := GroundNow().value, executed;
      repo.SnapshotsAreRealizable();
      end := RunBounded();
      RunEnds(g, run);
      var after := repo.TakeSnapshot();
      if after.None? {
        return end, Raised(Unreadable);
      }
      if after.value == before {
        NothingToUndo(g, run);
        return end, Unchanged;
      }
      if !OwnershipMatches(before, after.value) {
        return end, Raised(GitViolation);
      }
      SomethingToUndo(g, run, after.value);
      var paths := ChangedPaths(before, after.value);
      var restored := repo.RestoreCandidateState(before);
      if restored.Failure? {
        return end, Raised(RollbackFailed(executed - 1));
      }
      return end, Mutated(Signature(after.value.indexTree, after.value.candidateTree, paths, after.value.status));
    }

    /** One more run of a check, compared with the first mutation so far, and what follows from it. */
    method RunAgain(at: Repeating, answers: seq<bool>, ghost used: nat, ghost g: Ground, ghost from: nat,
                    ghost first: Option<nat>)
      returns (turn: Turn, ghost firstAfter: Option<nat>)
      requires Valid() && GroundNow() == Some(g)
      requires Underway(runs(g), from, executed, first, at, answers, used)
      modifies this`executed, repo
      ensures executed == old(executed) + 1
      ensures !turn.Stop? ==> GroundNow() == Some(g)
      ensures turn.Again? ==>
        && Underway(runs(g), from, executed, firstAfter, turn.state, answers, used)
        && (at.prior.Some? ==> turn.state.prior.Some?)
        && (turn.state.usedAfter > at.usedAfter || (at.prior.None? && turn.state.prior.Some?))
      ensures turn.Rest? ==> AtRest(runs(g), from, executed, turn.settled, answers, used, turn.usedAfter)
      ensures turn.Stop? ==> Stops(turn.error)
      ensures turn.Stop? && turn.error.RollbackFailed? ==>
        turn.error.run == old(executed) && !runs(g).undoable(old(executed))
      ensures Harmless(g, old(executed)) ==> !turn.Stop?
    {
      firstAfter := first;
      ghost var all := runs(g);
      var run := executed;
      var end, observed := RunContained();
      if observed.Raised? {
        return Stop(observed.error), first;
      }
      if observed.Mutated? {
        var tree, paths := Some(observed.signature.candidate), at.paths + observed.signature.paths;
        if at.prior.None? {
          FirstMutation(all, from, run, executed, at, answers, used);
          return Again(at.(prior := Some(observed.signature), tree := tree, paths := paths)), Some(run);
        }
        SignaturesTellApart(g, first.value, run);
        MutatedAgain(all, from, run, executed, first.value, at, answers, used);
        var kind := if observed.signature == at.prior.value then SideEffectRepeated else SideEffectUnstable;
        return Rest(Settled(run, end, kind, tree, paths, at.retries), at.usedAfter), first;
      }
      var kind, usedAfter := KindOf(end), at.usedAfter;
      if InfrastructureKind(kind) && usedAfter < |answers| {
        var granted := answers[usedAfter];
        usedAfter := usedAfter + 1;
        if granted {
          Retried(all, from, run, executed, first, at, answers, used);
          return Again(at.(retries := at.retries + 1, usedAfter := usedAfter)), first;
        }
      }
      ComesToRest(all, from, run, executed, first, at, answers, used, usedAfter);
      return Rest(Settled(run, end, kind, at.tree, at.paths, at.retries), usedAfter), first;
    }

    /**
     Run one check until its result is settled: a first mutation and each granted
     infrastructure failure give another run, and nothing else does.
     */
    method RunUntilSettled(answers: seq<bool>, used: nat) returns (r: Result<Settled, RunError>, usedAfter: nat)
      requires Valid() && used <= |answers|
      modifies this`executed, repo
      ensures old(executed) <= executed <= old(executed) + |answers| + 2 && usedAfter <= |answers|
      ensures r.Success? ==> GroundNow() == old(GroundNow()) && old(GroundNow()).Some?
      ensures r.Success? ==> AtRest(old(RunsNow()).value, old(executed), executed, r.value, answers, used, usedAfter)
      ensures r.Failure? ==> Stops(r.error)
      ensures r.Failure? && r.error.RollbackFailed? ==>
        && old(GroundNow()).Some? && old(executed) <= r.error.run < executed
        && !old(RunsNow()).value.undoable(r.error.run)
      ensures old(EveryRunIsHarmless()) ==> r.Success?
    {
      if repo.TakeSnapshot().None? {
        return Failure(Unreadable), used;
      }
      ghost var g := GroundNow().value;
      ghost var first: Option<nat> := None;
      var at := Repeating(None, None, {}, 0, used);
      while true
        invariant GroundNow() == Some(g)
        invariant Underway(runs(g), old(executed), executed, first, at, answers, used)
        decreases |answers| - at.usedAfter, at.prior.None?
      {
        assert old(EveryRunIsHarmless()) ==> Harmless(g, executed);
        var turn;
        turn, first := RunAgain(at, answers, used, g, old(executed), first);
        match turn {
          case Stop(error) => return Failure(error), at.usedAfter;
          case Rest(settled, after) => return Success(settled), after;
          case Again(state) => at := state;
        }
      }
    }

    /**
     One check.  It ends with the candidate exactly as it found it, or it raises
     because ownership changed, HEAD became unreadable, or the last run left a name
     that cannot be undone.
     */
    method RunCheck(check: CheckConfig, answers: seq<bool>, used: nat)
      returns (r: Result<CheckResult, RunError>, attempts: nat, usedAfter: nat, ghost last: nat)
      requires Valid() && used <= |answers|
      modifies this`executed, repo
      ensures r.Success? ==> executed == old(executed) + attempts == last + 1
      ensures r.Success? ==> GroundNow() == old(GroundNow()) && old(GroundNow()).Some?
      ensures r.Success? ==>
        && old(RunsNow()).value.CheckTold(old(executed), last, r.value, answers, used, usedAfter)
        && Answers(check, map[], r.value, attempts)
      ensures r.Success? ==> old(RunsNow()).value.AllUndoable(old(executed), executed)
      ensures old(executed) <= executed <= old(executed) + |answers| + 2 && usedAfter <= |answers|
      ensures r.Failure? ==> Stops(r.error)
      ensures r.Failure? && r.error.RollbackFailed? ==>
        && old(GroundNow()).Some? && old(executed) <= r.error.run < executed
        && !old(RunsNow()).value.undoable(r.error.run)
      ensures old(EveryRunIsHarmless()) ==> r.Success?
    {
      var settled;
      var before := executed;
      settled, usedAfter := RunUntilSettled(answers, used);
      attempts := executed - before;
      match settled {
        case Failure(error) => r, last := Failure(error), 0;
        case Success(s) =>
          FinishedAnswers(check, s, attempts);
          SettledIsTold(old(RunsNow()).value, old(executed), check, s, answers, used, usedAfter);
          r, last := Success(Finished(check, s)), s.run;
      }
    }

    /** One turn of the loop over the selected checks: a skip, or a check with its runs. */
    method RunOrSkip(check: CheckConfig, skip: map<string, string>, answers: seq<bool>, used: nat)
      returns (r: Result<CheckResult, RunError>, attempts: nat, usedAfter: nat, ghost trace: Trace)
      requires Valid() && used <= |answers|
      modifies this`executed, repo
      ensures old(executed) <= executed && usedAfter <= |answers|
      ensures r.Success? ==> GroundNow() == old(GroundNow()) && executed == old(executed) + attempts
      ensures r.Success? ==> Answers(check, skip, r.value, attempts)
      ensures r.Success? ==>
        && trace.from == old(executed) && trace.to == executed && trace.used == used && trace.usedAfter == usedAfter
        && Tells(old(RunsNow()), skip, answers)(check, r.value, trace)
      ensures r.Success? && old(GroundNow()).Some? ==> old(RunsNow()).value.AllUndoable(old(executed), executed)
      ensures r.Failure? ==> Stops(r.error)
      ensures r.Failure? && r.error.RollbackFailed? ==>
        && old(GroundNow()).Some? && old(executed) <= r.error.run < executed
        && !old(RunsNow()).value.undoable(r.error.run)
      ensures old(EveryRunIsHarmless()) ==> r.Success?
    {
      if Skips(skip, check.id) {
        trace := Trace(executed, executed, executed, used, used);
        return Success(SkippedResult(check, skip[check.id])), 0, used, trace;
      }
      ghost var last;
      r, attempts, usedAfter, last := RunCheck(check, answers, used);
      trace := Trace(old(executed), last, executed, used, usedAfter);
    }

    /** The selected checks, in order. */
    method RunSelected(selected: seq<CheckConfig>, skip: map<string, string>, answers: seq<bool>)
      returns (r: Result<seq<CheckResult>, RunError>, attempts: seq<nat>, ghost traces: seq<Trace>)
      requires Valid()
      modifies this`executed, repo
      ensures executed >= old(executed)
      ensures old(EveryRunIsHarmless()) ==> r.Success?
      ensures r.Failure? ==> Stops(r.error)
      ensures r.Failure? && r.error.RollbackFailed? ==>
        && old(GroundNow()).Some? && old(executed) <= r.error.run < executed
        && !old(RunsNow()).value.undoable(r.error.run)
      ensures r.Success? ==> GroundNow() == old(GroundNow())
      ensures r.Success? && old(GroundNow()).Some? ==> old(RunsNow()).value.AllUndoable(old(executed), executed)
      ensures r.Success? ==> AllAnswered(selected, skip, r.value, attempts) && executed == old(executed) + Sum(attempts)
      ensures r.Success? ==>
        && TracedBy(Tells(old(RunsNow()), skip, answers), selected, r.value, traces, old(executed))
        && |traces| == |selected| && executed == RunsBefore(traces, |selected|, old(executed))
    {
      attempts, traces := [], [];
      ghost var before, tells := GroundNow(), Tells(RunsNow(), skip, answers);
      var results: seq<CheckResult> := [];
      var used: nat := 0;
      for i := 0 to |selected|
        invariant GroundNow() == before && used <= |answers|
        invariant before.Some? ==> old(RunsNow()).value.AllUndoable(old(executed), executed)
        invariant executed == old(executed) + Sum(attempts)
        invariant AllAnswered(selected[..i], skip, results, attempts)
        invariant |traces| == i && TracedBy(tells, selected, results, traces, old(executed))
        invariant executed == RunsBefore(traces, i, old(executed)) && used == UsedBefore(traces, i)
      {
        var outcome, one: nat;
        ghost var trace;
        outcome, one, used, trace := RunOrSkip(selected[i], skip, answers, used);
        if outcome.Failure? {
          return Failure(outcome.error), attempts, traces;
        }
        OneMoreAnswered(selected, i, skip, results, attempts, outcome.value, one);
        OneMoreTraced(tells, selected, results, traces, old(executed), outcome.value, trace);
        results, attempts, traces := results + [outcome.value], attempts + [one], traces + [trace];
      }
      assert selected[..|selected|] == selected;
      r := Success(results);
    }

    /**
     Every selected check, in order, once every working directory is found.
     `attempts[i]` is how often check `i` ran: never for a skipped one, otherwise at
     most its infrastructure retries plus two.  `traces` tells why.
     */
    method RunChecks(config: CheckCatalogue, ids: Option<seq<string>>, skip: map<string, string>, answers: seq<bool>)
      returns (r: Result<seq<CheckResult>, RunError>, attempts: seq<nat>, ghost traces: seq<Trace>)
      requires Valid()
      modifies this`executed, repo
      ensures var selection := SelectChecks(config, ids);
              && (selection.Failure? ==> r == Failure(Selection(selection.error)) && executed == old(executed))
              && (selection.Success? ==>
                  && (r == Failure(BadDirectory) <==> exists c :: c in selection.value && !resolves(c))
                  && (r == Failure(BadDirectory) ==> executed == old(executed))
                  && (r.Failure? && r.error != BadDirectory ==> Stops(r.error))
                  && (old(EveryRunIsHarmless()) ==> r.Success? || r == Failure(BadDirectory)))
              && (r.Success? ==>
                  && selection.Success?
                  && repo.TakeSnapshot() == old(repo.TakeSnapshot())
                  && AllAnswered(selection.value, skip, r.value, attempts)
                  && executed == old(executed) + Sum(attempts)
                  && TracedBy(Tells(old(RunsNow()), skip, answers), selection.value, r.value, traces, old(executed))
                  && |traces| == |selection.value|
                  && executed == RunsBefore(traces, |selection.value|, old(executed)))
      ensures r.Failure? && r.error.RollbackFailed? ==>
        && old(GroundNow()).Some? && old(executed) <= r.error.run < executed
        && !old(RunsNow()).value.undoable(r.error.run)
      ensures r.Success? && old(GroundNow()).Some? ==> old(RunsNow()).value.AllUndoable(old(executed), executed)
    {
      traces := [];
      var selection := SelectChecks(config, ids);
      if selection.Failure? {
        return Failure(Selection(selection.error)), [], traces;
      }
      if exists c :: c in selection.value && !resolves(c) {
        return Failure(BadDirectory), [], traces;
      }
      r, attempts, traces := RunSelected(selection.value, skip, answers);
    }

    /** One preflight: contained like a check, with one more chance after a mutation. */
    method RunPreflight(check: CheckConfig) returns (r: Result<Option<PreflightFailure>, RunError>)
      requires Valid()
      modifies this`executed, repo
      ensures r.Success? ==>
        && old(GroundNow()).Some? && GroundNow() == old(GroundNow())
        && old(RunsNow()).value.PreflightTold(old(executed), executed, check.id, r.value)
      ensures r.Failure? ==> Stops(r.error)
      ensures r.Failure? && r.error.RollbackFailed? ==>
        && old(GroundNow()).Some? && old(executed) <= r.error.run < executed
        && !old(RunsNow()).value.undoable(r.error.run)
      ensures old(EveryRunIsHarmless()) ==> r.Success?
    {
      var end, observed := RunContained();
      if observed.Raised? {
        return Failure(observed.error);
      }
      if observed.Mutated? {
        end, observed := RunContained();
        if observed.Raised? {
          return Failure(observed.error);
        }
        if observed.Mutated? {
          return Success(Some(PreflightSideEffect(check.id)));
        }
      }
      return Success(Answered(check.id, end));
    }

    /** The preflights of the selected checks that have one, in order; the candidate ends as it was. */
    method RunPreflights(selected: seq<CheckConfig>)
      returns (r: Result<seq<PreflightFailure>, RunError>,
               ghost verdicts: seq<Option<PreflightFailure>>, ghost bounds: seq<nat>)
      requires Valid()
      modifies this`executed, repo
      ensures r.Success? ==>
        && GroundNow() == old(GroundNow()) && r.value == Reported(verdicts)
        && Preflighted(old(RunsNow()), selected, verdicts, bounds)
        && bounds[0] == old(executed) && bounds[|selected|] == executed
      ensures r == Failure(BadDirectory) ==> exists c :: c in selected && c.preflightArgv != [] && !resolves(c)
      ensures r.Failure? ==> Stops(r.error) || r.error == BadDirectory
    {
      verdicts, bounds := [], [executed];
      ghost var ground, before := GroundNow(), RunsNow();
      var failures: seq<PreflightFailure> := [];
      for i := 0 to |selected|
        invariant GroundNow() == ground && failures == Reported(verdicts)
        invariant Preflighted(before, selected[..i], verdicts, bounds)
        invariant bounds[0] == old(executed) && bounds[i] == executed
      {
        var verdict: Option<PreflightFailure> := None;
        if selected[i].preflightArgv != [] {
          if !resolves(selected[i]) {
            return Failure(BadDirectory), verdicts, bounds;
          }
          var outcome := RunPreflight(selected[i]);
          if outcome.Failure? {
            return Failure(outcome.error), verdicts, bounds;
          }
          verdict := outcome.value;
          failures := failures + if verdict.Some? then [verdict.value] else [];
        }
        OneMorePreflight(before, selected, i, verdicts, bounds, verdict, executed);
        verdicts, bounds := verdicts + [verdict], bounds + [executed];
      }
      assert selected[..|selected|] == selected;
      r := Success(failures);
    }

    /** The same for the wanted IDs of a catalogue. */
    method RunCheckPreflights(config: CheckCatalogue, ids: seq<string>)
      returns (r: Result<seq<PreflightFailure>, RunError>,
               ghost verdicts: seq<Option<PreflightFailure>>, ghost bounds: seq<nat>)
      requires Valid()
      modifies this`executed, repo
      ensures var selection := SelectChecks(config, Some(ids));
              if selection.Failure? then r == Failure(Selection(selection.error)) && executed == old(executed)
              else
                && (r.Failure? ==> Stops(r.error) || r.error == BadDirectory)
                && (r == Failure(BadDirectory) ==>
                    exists c :: c in selection.value && c.preflightArgv != [] && !resolves(c))
                && (r.Success? ==>
                    && GroundNow() == old(GroundNow()) && r.value == Reported(verdicts)
                    && Preflighted(old(RunsNow()), selection.value, verdicts, bounds)
                    && bounds[0] == old(executed) && bounds[|selection.value|] == executed)
    {
      var selection := SelectChecks(config, Some(ids));
      if selection.Failure? {
        return Failure(Selection(selection.error)), [], [];
      }
      r, verdicts, bounds := RunPreflights(selection.value);
    }

    /** Check `i` ran from `bounds[i]` to `bounds[i + 1]`: not at all without a preflight, else as its verdict says. */
    ghost predicate PreflightAt(before: Option<Runs>, check: CheckConfig, from: nat, to: nat,
                                verdict: Option<PreflightFailure>) {
      if check.preflightArgv == [] then verdict == None && from == to
      else resolves(check) && before.Some? && before.value.PreflightTold(from, to, check.id, verdict)
    }

    ghost predicate Preflighted(before: Option<Runs>, selected: seq<CheckConfig>,
                                verdicts: seq<Option<PreflightFailure>>, bounds: seq<nat>) {
      && |verdicts| == |selected| && |bounds| == |selected| + 1
      && forall i :: 0 <= i < |selected| ==> PreflightAt(before, selected[i], bounds[i], bounds[i + 1], verdicts[i])
    }

    lemma OneMorePreflight(before: Option<Runs>, selected: seq<CheckConfig>, i: nat,
                           verdicts: seq<Option<PreflightFailure>>, bounds: seq<nat>,
                           verdict: Option<PreflightFailure>, to: nat)
      requires i < |selected| && Preflighted(before, selected[..i], verdicts, bounds)
        && PreflightAt(before, selected[i], bounds[i], to, verdict)
      ensures Preflighted(before, selected[..i + 1], verdicts + [verdict], bounds + [to])
      ensures Reported(verdicts + [verdict]) == Reported(verdicts) + if verdict.Some? then [verdict.value] else []
    {
      assert (verdicts + [verdict])[..i] == verdicts;
      forall k | 0 <= k < i
        ensures PreflightAt(before, selected[..i + 1][k], (bounds + [to])[k], (bounds + [to])[k + 1],
          (verdicts + [verdict])[k])
      {
        assert PreflightAt(before, selected[..i][k], bounds[k], bounds[k + 1], verdicts[k]);
      }
    }
  }

  /** The failures among the verdicts, in order. */
  function Reported(verdicts: seq<Option<PreflightFailure>>): seq<PreflightFailure> {
    if verdicts == [] then []
    else
      var last := |verdicts| - 1;
      Reported(verdicts[..last]) + if verdicts[last].Some? then [verdicts[last].value] else []
  }

  lemma {:induction false} ReportedOfConcat(a: seq<Option<PreflightFailure>>, b: seq<Option<PreflightFailure>>)
    ensures Reported(a + b) == Reported(a) + Reported(b)
    decreases |b|
  {
    if b == [] {
      assert a + b == a;
    } else {
      assert (a + b)[..|a + b| - 1] == a + b[..|b| - 1];
      ReportedOfConcat(a, b[..|b| - 1]);
    }
  }

  /** What one entry of the results says about its check. */
  predicate Answers(check: CheckConfig, skip: map<string, string>, r: CheckResult, attempts: nat) {
    && r.name == check.id
    && WellShaped(r)
    && (r.failureKind.SkippedInfra? <==> check.id in skip && skip[check.id] != "")
    && (r.failureKind.SkippedInfra? ==> attempts == 0 && r.skippedReason == skip[check.id])
    && (!r.failureKind.SkippedInfra? ==> attempts == r.infrastructureRetries + if r.workspaceMutated then 2 else 1)
  }

  /** One result per check, in order, each one true of its check. */
  predicate AllAnswered(selected: seq<CheckConfig>, skip: map<string, string>, results: seq<CheckResult>,
                        attempts: seq<nat>) {
    && |results| == |selected| == |attempts|
    && forall i :: 0 <= i < |results| ==> Answers(selected[i], skip, results[i], attempts[i])
  }

  lemma OneMoreAnswered(selected: seq<CheckConfig>, i: nat, skip: map<string, string>, results: seq<CheckResult>,
                        attempts: seq<nat>, r: CheckResult, one: nat)
    requires i < |selected| && AllAnswered(selected[..i], skip, results, attempts) && Answers(selected[i], skip, r, one)
    ensures AllAnswered(selected[..i + 1], skip, results + [r], attempts + [one])
    ensures Sum(attempts + [one]) == Sum(attempts) + one
  {
    assert (attempts + [one])[..i] == attempts;
    forall k | 0 <= k < i ensures Answers(selected[..i + 1][k], skip, (results + [r])[k], (attempts + [one])[k]) {
      assert Answers(selected[..i][k], skip, results[k], attempts[k]);
    }
  }
}
