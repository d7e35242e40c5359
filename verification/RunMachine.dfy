/**
 The run state machine: one pure transition function, and the status it projects.

 A reason is a non-empty code, already stripped of surrounding blanks.
 */
module RunMachine {
  import opened Common

  datatype Phase =
    | Context | Planner | PlanApproval | WorktreeSetup | ImplementStep
    | DeterministicGate | Audit | CandidateReady | CandidatePush | Publish

  datatype Disposition = Running | WaitExternal | WaitHuman | Completed | Failed {
    predicate Waiting() {
      WaitExternal? || WaitHuman?
    }

    predicate Terminal() {
      Completed? || Failed?
    }
  }

  type Reason = s: string | s != "" witness "x"

  const SPEC_DECISION: Reason := "SPEC_DECISION_REQUIRED"

  datatype Machine = Machine(phase: Option<Phase>, disposition: Disposition, reason: Option<Reason>)

  datatype Event =
    | Advance(target: Option<Phase>)
    | Wait(disposition: Option<Disposition>, reason: Option<Reason>)
    | Fail(reason: Option<Reason>)
    | Complete
    | Resume

  datatype Status = RunningStatus | WaitingHuman | WaitingExternal | Committed | Published | Partial | FailedStatus

  datatype Outcome = Outcome(status: Status, resumable: bool, resumeEligible: bool)

  function Successors(p: Phase): set<Phase> {
    match p
    case Context => {Planner}
    case Planner => {PlanApproval, ImplementStep, CandidateReady}
    case PlanApproval => {WorktreeSetup}
    case WorktreeSetup => {ImplementStep}
    case ImplementStep => {ImplementStep, DeterministicGate}
    case DeterministicGate => {DeterministicGate, CandidateReady, Audit, Planner}
    case Audit => {DeterministicGate}
    case CandidateReady => {CandidatePush}
    case CandidatePush => {Publish}
    case Publish => {}
  }

  const COMPLETABLE := {CandidatePush, Publish, Planner}

  /** Apply one event; `None` is a refusal. */
  function Transition(current: Machine, event: Event): Option<Machine> {
    var resumableFailure := event.Resume? && current.disposition.Failed?;
    var approvedPlanGate := event.Resume? && current.disposition.Running? && current.phase == Some(PlanApproval);
    if current.disposition.Terminal() && !resumableFailure then None
    else
      match event
      case Advance(target) =>
        if target.None? || !current.disposition.Running? || current.phase.None? then None
        else if target.value !in Successors(current.phase.value) then None
        else Some(Machine(target, Running, None))
      case Wait(disposition, reason) =>
        if disposition.None? || !disposition.value.Waiting() then None
        else if disposition.value.WaitHuman? && reason != Some(SPEC_DECISION) then None
        else Some(Machine(current.phase, disposition.value, reason))
      case Fail(reason) => Some(Machine(current.phase, Failed, reason))
      case Complete =>
        if !current.disposition.Running? || current.phase.None? || current.phase.value !in COMPLETABLE then None
        else Some(Machine(current.phase, Completed, None))
      case Resume =>
        if !current.disposition.Waiting() && !resumableFailure && !approvedPlanGate then None
        else Some(Machine(current.phase, Running, None))
  }

  /** The derived status view; `None` is the refusal of an unexplained human wait. */
  function Project(m: Machine): Option<Outcome> {
    match m.disposition
    case Running => Some(Outcome(RunningStatus, false, false))
    case Completed =>
      var status :=
        if m.phase == Some(Publish) then Published else if m.phase == Some(Planner) then Partial else Committed;
      Some(Outcome(status, false, false))
    case Failed => Some(Outcome(FailedStatus, false, true))
    case WaitExternal => Some(Outcome(WaitingExternal, true, true))
    case WaitHuman => if m.reason != Some(SPEC_DECISION) then None else Some(Outcome(WaitingHuman, false, false))
  }

  // -------------------------------------------------------------------- steps

  /** Only an advance changes the phase, from a running state to a running successor. */
  lemma PhaseMovesOnlyByAdvance(m: Machine, e: Event)
    requires Transition(m, e).Some?
    ensures var next := Transition(m, e).value;
            && (next.phase != m.phase ==> e.Advance?)
            && (e.Advance? ==>
                  && m.phase.Some? && next.phase == e.target && next.phase.Some?
                  && next.phase.value in Successors(m.phase.value)
                  && m.disposition.Running? && next == Machine(e.target, Running, None))
  {
  }

  /**
   What may follow each posture: completion is final, a failure only resumes, a wait only
   fails, waits again or resumes.
   */
  lemma PostureRules(m: Machine, e: Event)
    ensures m.disposition.Completed? ==> Transition(m, e).None?
    ensures m.disposition.Failed? ==> (Transition(m, e).Some? <==> e.Resume?)
    ensures m.disposition.Waiting() && Transition(m, e).Some? ==> e.Wait? || e.Fail? || e.Resume?
    ensures e.Resume? ==>
      (Transition(m, e).Some? <==>
          m.disposition.Waiting() || m.disposition.Failed? || (m.disposition.Running? && m.phase == Some(PlanApproval)))
    ensures e.Resume? && Transition(m, e).Some? ==> Transition(m, e).value == Machine(m.phase, Running, None)
    ensures e.Fail? ==> (Transition(m, e).Some? <==> !m.disposition.Terminal())
    ensures e.Fail? && Transition(m, e).Some? ==> Transition(m, e).value == Machine(m.phase, Failed, e.reason)
    ensures e.Wait? ==>
      (Transition(m, e).Some? <==>
        && !m.disposition.Terminal() && e.disposition.Some?
        && (e.disposition.value.WaitExternal?
            || (e.disposition.value.WaitHuman? && e.reason == Some(SPEC_DECISION))))
    ensures e.Wait? && Transition(m, e).Some? ==>
      Transition(m, e).value == Machine(m.phase, e.disposition.value, e.reason)
    ensures e.Complete? ==>
      (Transition(m, e).Some? <==>
        m.disposition.Running? && m.phase.Some? && m.phase.value in {CandidatePush, Publish, Planner})
    ensures Transition(m, e).Some? && Transition(m, e).value.disposition.Completed? ==>
      e.Complete? && Transition(m, e).value == Machine(m.phase, Completed, None)
  {
  }

  /** What a projected status tells of the run, and which runs may be resumed. */
  lemma StatusMeans(m: Machine)
    requires Project(m).Some?
    ensures var outcome := Project(m).value;
            && (outcome.status == Published <==> m.disposition.Completed? && m.phase == Some(Publish))
            && (outcome.status == Partial <==> m.disposition.Completed? && m.phase == Some(Planner))
            && (outcome.status == FailedStatus <==> m.disposition.Failed?)
            && (outcome.status == RunningStatus <==> m.disposition.Running?)
            && (outcome.resumable <==> outcome.status == WaitingExternal)
            && (outcome.resumeEligible <==> outcome.status in {WaitingExternal, FailedStatus})
  {
  }

  /** The place of a phase on the straight way to publication; an audit stands aside. */
  function Rank(p: Phase): int {
    match p
    case Context => 0
    case Planner => 1
    case PlanApproval => 2
    case WorktreeSetup => 3
    case ImplementStep => 4
    case DeterministicGate => 5
    case CandidateReady => 6
    case CandidatePush => 7
    case Publish => 8
    case Audit => -2
  }

  /**
   A running phase advances to the next one on the way, to another step or another gate, from the gate to
   an audit or a new plan, from an audit to the gate, and from the planner to steps or a ready candidate.
   */
  lemma AdvancesExactlyWhen(m: Machine, target: Phase)
    ensures Transition(m, Advance(Some(target))).Some? <==>
            && m.disposition.Running? && m.phase.Some?
            && var from := m.phase.value;
               || Rank(target) == Rank(from) + 1
               || (target == from && from in {ImplementStep, DeterministicGate})
               || (from.DeterministicGate? && target in {Audit, Planner})
               || (from.Audit? && target.DeterministicGate?)
               || (from.Planner? && target in {ImplementStep, CandidateReady})
  {
  }

  // --------------------------------------------------------------------- runs

  const START := Machine(Some(Context), Running, None)

  /** The states one accepted event sequence visits. */
  ghost predicate IsRun(states: seq<Machine>, events: seq<Event>) {
    && |states| == |events| + 1
    && states[0] == START
    && forall i :: 0 <= i < |events| ==> Transition(states[i], events[i]) == Some(states[i + 1])
  }

  /** Every reached state has a phase, and a status: the projection never refuses. */
  lemma {:induction false} ReachedStatesProject(states: seq<Machine>, events: seq<Event>, i: nat)
    requires IsRun(states, events) && i < |states|
    ensures states[i].phase.Some? && Project(states[i]).Some?
    ensures states[i].disposition.WaitHuman? ==> states[i].reason == Some(SPEC_DECISION)
    ensures Project(states[i]).value.status == Committed ==> states[i].phase == Some(CandidatePush)
  {
    if i > 0 {
      ReachedStatesProject(states, events, i - 1);
      assert Transition(states[i - 1], events[i - 1]) == Some(states[i - 1 + 1]);
      PhaseMovesOnlyByAdvance(states[i - 1], events[i - 1]);
      PostureRules(states[i - 1], events[i - 1]);
    }
  }

  /** Visited phases are a path of the successor graph. */
  lemma VisitedPhasesFormAPath(states: seq<Machine>, events: seq<Event>, i: nat)
    requires IsRun(states, events) && i < |events|
    ensures states[i].phase.Some? && states[i + 1].phase.Some?
    ensures states[i + 1].phase == states[i].phase || states[i + 1].phase.value in Successors(states[i].phase.value)
  {
    ReachedStatesProject(states, events, i);
    assert Transition(states[i], events[i]) == Some(states[i + 1]);
    PhaseMovesOnlyByAdvance(states[i], events[i]);
  }

  /** Completion ends a run; a failed run goes on only by a resume at the same phase. */
  lemma TerminalStatesInRuns(states: seq<Machine>, events: seq<Event>, i: nat)
    requires IsRun(states, events) && i < |states|
    ensures states[i].disposition.Completed? ==> i == |events|
    ensures states[i].disposition.Failed? && i < |events| ==>
      events[i].Resume? && states[i + 1] == Machine(states[i].phase, Running, None)
  {
    if i < |events| {
      assert Transition(states[i], events[i]) == Some(states[i + 1]);
      PostureRules(states[i], events[i]);
    }
  }

  /** A phase met later than another one was entered from one of its predecessors in between. */
  lemma {:induction false} EnteredFromPredecessor(states: seq<Machine>, events: seq<Event>, i: nat, j: nat, p: Phase)
    returns (k: nat)
    requires IsRun(states, events) && i < j < |states|
    requires states[i].phase != Some(p) && states[j].phase == Some(p)
    ensures i <= k < j && states[k].phase.Some? && states[k].phase != Some(p) && p in Successors(states[k].phase.value)
    decreases j
  {
    VisitedPhasesFormAPath(states, events, j - 1);
    if states[j - 1].phase == Some(p) {
      k := EnteredFromPredecessor(states, events, i, j - 1, p);
    } else {
      k := j - 1;
    }
  }

  /** After an audit, no candidate is ready before another deterministic gate. */
  lemma AuditIsGatedAgain(states: seq<Machine>, events: seq<Event>, i: nat, j: nat)
    requires IsRun(states, events) && i < j < |states|
    requires states[i].phase == Some(Audit) && states[j].phase == Some(CandidateReady)
    ensures exists k :: i < k < j && states[k].phase == Some(DeterministicGate)
  {
    var left := LeavesAudit(states, events, i, j);
    assert i < left < j && states[left].phase == Some(DeterministicGate);
  }

  /** Once a step is implemented, no candidate is ready before a deterministic gate. */
  lemma {:induction false} ImplementedIsGated(states: seq<Machine>, events: seq<Event>, i: nat, j: nat)
    requires IsRun(states, events) && i < j < |states|
    requires states[i].phase == Some(ImplementStep) && states[j].phase == Some(CandidateReady)
    ensures exists k :: i < k < j && states[k].phase == Some(DeterministicGate)
    decreases j - i
  {
    VisitedPhasesFormAPath(states, events, i);
    if states[i + 1].phase == Some(ImplementStep) {
      ImplementedIsGated(states, events, i + 1, j);
    }
  }

  /** A ready candidate comes straight from a gate, or from a planner that found nothing more to do. */
  lemma ReadyWasGatedOrPlanned(states: seq<Machine>, events: seq<Event>, j: nat)
    requires IsRun(states, events) && j < |states| && states[j].phase == Some(CandidateReady)
    ensures exists k ::
      0 <= k < j && (states[k].phase == Some(DeterministicGate) || states[k].phase == Some(Planner))
  {
    var k := EnteredFromPredecessor(states, events, 0, j, CandidateReady);
    assert states[k].phase == Some(DeterministicGate) || states[k].phase == Some(Planner);
  }

  /** An audit is only left for the gate. */
  lemma {:induction false} LeavesAudit(states: seq<Machine>, events: seq<Event>, i: nat, j: nat) returns (k: nat)
    requires IsRun(states, events) && i < j < |states|
    requires states[i].phase == Some(Audit) && states[j].phase != Some(Audit)
    ensures i < k <= j && states[k].phase == Some(DeterministicGate)
    decreases j - i
  {
    VisitedPhasesFormAPath(states, events, i);
    if states[i + 1].phase == Some(Audit) {
      k := LeavesAudit(states, events, i + 1, j);
    } else {
      k := i + 1;
    }
  }

  /** Publication comes after a candidate push, which comes after a ready candidate. */
  lemma PublishAfterPushAfterReady(states: seq<Machine>, events: seq<Event>, j: nat)
    requires IsRun(states, events) && j < |states| && states[j].phase == Some(Publish)
    ensures exists ready, push ::
      0 <= ready < push < j && states[ready].phase == Some(CandidateReady) && states[push].phase == Some(CandidatePush)
  {
    var push := EnteredFromPredecessor(states, events, 0, j, Publish);
    var ready := EnteredFromPredecessor(states, events, 0, push, CandidatePush);
    assert states[push].phase == Some(CandidatePush) && states[ready].phase == Some(CandidateReady);
  }

  /** A run recorded as committed or published pushed a ready candidate first. */
  lemma DeliveredRunsWereReady(states: seq<Machine>, events: seq<Event>, j: nat)
    requires IsRun(states, events) && j < |states|
    requires Project(states[j]).Some?
      && (Project(states[j]).value.status == Committed || Project(states[j]).value.status == Published)
    ensures exists ready :: 0 <= ready < j && states[ready].phase == Some(CandidateReady)
  {
    ReachedStatesProject(states, events, j);
    if states[j].phase == Some(Publish) {
      PublishAfterPushAfterReady(states, events, j);
    } else {
      var ready := EnteredFromPredecessor(states, events, 0, j, CandidatePush);
      assert states[ready].phase == Some(CandidateReady);
    }
  }
}
