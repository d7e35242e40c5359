/**
 The resume checkpoint format, and the gate that decides whether a stopped run
 may be claimed again.
 */
module Resume {
  import opened Common
  import opened RunMachine
  import opened StateStore

  /** A checkpoint record; the ID fields hold well-formed digests only. */
  datatype ResumeCheckpoint = ResumeCheckpoint(
    phase: Phase,
    iteration: int,
    stepIndex: Option<int>,
    lastGreen: Option<string>,
    planSha: Option<string>)

  const EARLY := {Context, Planner}

  /** What a checkpoint of each phase must carry. */
  predicate Valid(c: ResumeCheckpoint) {
    && c.iteration >= 1
    && (c.phase.ImplementStep? ==> c.stepIndex.Some? && c.stepIndex.value >= 0)
    && (!c.phase.ImplementStep? ==> c.stepIndex.None?)
    && (c.phase !in EARLY ==> c.planSha.Some?)
    && (c.phase !in EARLY + {PlanApproval, WorktreeSetup} ==> c.lastGreen.Some?)
  }

  function SlotOf<T>(o: Option<T>): Slot<T> {
    if o.Some? then Given(o.value) else Null
  }

  function OptionOf<T>(s: Slot<T>): Option<T> {
    if s.Given? then Some(s.value) else None
  }

  function CheckpointPayload(c: ResumeCheckpoint): Payload {
    Payload(Given(SCHEMA_VERSION), Given(c.phase), Given(c.iteration), SlotOf(c.stepIndex), SlotOf(c.lastGreen),
        SlotOf(c.planSha), true)
  }

  datatype ParseError = SchemaUnsupported | Inconsistent

  /** The strict read of a whole payload. */
  function Parse(p: Payload): Result<ResumeCheckpoint, ParseError> {
    if p.schema.Given? && p.schema.value != SCHEMA_VERSION then Failure(SchemaUnsupported)
    else if !p.schema.Given? || !p.phase.Given? || !p.exactFields then Failure(Inconsistent)
    else if !p.iteration.Given? || p.stepIndex.Invalid? || p.lastGreen.Invalid? || p.planSha.Invalid? then
      Failure(Inconsistent)
    else
      var c := ResumeCheckpoint(p.phase.value, p.iteration.value, OptionOf(p.stepIndex), OptionOf(p.lastGreen),
          OptionOf(p.planSha));
      if Valid(c) then Success(c) else Failure(Inconsistent)
  }

  /** `None` is a run without a checkpoint. */
  function ReadCheckpoint(file: CheckpointFile): Result<Option<ResumeCheckpoint>, ParseError> {
    match file
    case None => Success(None)
    case Some(Garbage(_)) => Failure(Inconsistent)
    case Some(Encoded(p)) =>
      match Parse(p)
      case Success(c) => Success(Some(c))
      case Failure(e) => Failure(e)
  }

  /**
   Parsing and encoding are inverse: valid records survive a write, and an accepted payload
   is one some record encodes to.
   */
  lemma CheckpointRoundTrip(c: ResumeCheckpoint, p: Payload)
    ensures Valid(c) <==> Parse(CheckpointPayload(c)) == Success(c)
    ensures Parse(p) == Success(c) <==> Valid(c) && p == CheckpointPayload(c)
  {
  }

  /**
   Which payloads are read: exactly the fields of this schema, a phase, an iteration from 1, a step index
   for an implementation and for nothing else, a plan once there is one, and a green commit once there is one.
   */
  lemma ParsedExactlyWhen(p: Payload)
    ensures Parse(p).Success? <==>
            && p.schema == Given(SCHEMA_VERSION) && p.exactFields
            && p.phase.Given? && p.iteration.Given? && p.iteration.value >= 1
            && (if p.phase.value == ImplementStep then p.stepIndex.Given? && p.stepIndex.value >= 0
                else p.stepIndex.Null?)
            && (p.planSha.Given? || (p.planSha.Null? && p.phase.value in {Context, Planner}))
            && (p.lastGreen.Given?
                || (p.lastGreen.Null? && p.phase.value in {Context, Planner, PlanApproval, WorktreeSetup}))
    ensures Parse(p) == Failure(SchemaUnsupported) <==> p.schema.Given? && p.schema.value != SCHEMA_VERSION
  {
  }

  /** Move the durable boundary of a record to another operation. */
  function Rephase(c: ResumeCheckpoint, phase: Phase): ResumeCheckpoint {
    if c.phase == phase then c
    else c.(phase := phase, stepIndex := if phase.ImplementStep? then c.stepIndex else None)
  }

  /** Moving the boundary never fails towards an earlier requirement, and never into the middle of an implementation. */
  lemma RephaseStaysValidWhen(c: ResumeCheckpoint, phase: Phase)
    requires Valid(c) && c.phase != phase
    ensures Valid(Rephase(c, phase)) <==>
      && !phase.ImplementStep?
      && (phase in EARLY || c.planSha.Some?)
      && (phase in EARLY + {PlanApproval, WorktreeSetup} || c.lastGreen.Some?)
    ensures Valid(Rephase(c, Planner))
    ensures var moved := Rephase(c, phase);
            moved.phase == phase && moved.iteration == c.iteration && moved.lastGreen == c.lastGreen
                && moved.planSha == c.planSha
  {
  }

  // ------------------------------------------------------------ the resume gate

  function MachineForRun(file: RunFile, checkpoint: Option<ResumeCheckpoint>): Machine {
    Machine(if checkpoint.Some? then Some(checkpoint.value.phase) else file.phase,
            file.disposition,
            if file.reason.Some? then file.reason else FailureReason(file.meta))
  }

  /** The identity the resume gate computes, from the parsed record and the file's digest. */
  function GateIdentity(file: RunFile, bytes: CheckpointFile, checkpoint: Option<ResumeCheckpoint>): Identity {
    IdentityOf(MachineForRun(file, checkpoint), file.updatedAt, bytes)
  }

  predicate Holds(meta: map<string, Json>, key: string, value: Json) {
    key in meta && meta[key] == value
  }

  /** A durable approval is claimable while its run is still recorded as running. */
  predicate ApprovedPlanWaiting(file: RunFile, checkpoint: Option<ResumeCheckpoint>, approved: bool) {
    && checkpoint.Some? && checkpoint.value.phase.PlanApproval?
    && (file.disposition.Running? || file.status.RunningStatus?)
    && Holds(file.meta, "planning_protocol", JString("v2"))
    && approved
  }

  /** The record a run may be resumed from; `None` is a refusal.  `approved` and `fatal` come from outside. */
  function ResumeInfo(file: RunFile, bytes: CheckpointFile, approved: bool,
                      fatal: string -> bool): Option<ResumeCheckpoint> {
    match ReadCheckpoint(bytes)
    case Failure(_) => None
    case Success(checkpoint) =>
      match Project(MachineForRun(file, checkpoint))
      case None => None
      case Some(outcome) =>
        if !Holds(file.meta, "planning_protocol", JString("v2")) then None
        else if !outcome.resumeEligible && !ApprovedPlanWaiting(file, checkpoint, approved) then None
        else if FailureReason(file.meta).Some? && fatal(FailureReason(file.meta).value) then None
        else if Holds(file.meta, "recovery_resumable", JBool(false)) then None
        else checkpoint
  }

  /** A checkpoint the gate accepts is one the store reads, with the same phase. */
  lemma GateAndStoreReadTheSameCheckpoint(bytes: CheckpointFile)
    requires ReadCheckpoint(bytes).Success?
    ensures ControlStamp(bytes).Success?
    ensures var stamp, record := ControlStamp(bytes).value, ReadCheckpoint(bytes).value;
            && (stamp.Some? <==> record.Some?)
            && (record.Some? ==> stamp.value.phase == record.value.phase)
  {
  }

  /**
   What the gate calls resumable, the machine resumes: same phase, the very identity
   the store computes, and a claim nobody disturbed is written.
   */
  lemma ResumableRunsCanBeClaimed(file: RunFile, bytes: CheckpointFile, approved: bool, fatal: string -> bool,
                                  fields: map<string, Json>, now: nat)
    requires Coherent(file) && ResumeInfo(file, bytes, approved, fatal).Some?
    requires fields.Keys !! CONTROL_FIELDS && RawFailureReason(fields).JNull?
    ensures var checkpoint := ResumeInfo(file, bytes, approved, fatal);
            var claim := GateIdentity(file, bytes, checkpoint);
            var machine := MachineState(file, bytes).value;
            var verdict := Perform(file, bytes, TransitionRun(RunMachine.Resume, claim, fields), now);
            && MachineState(file, bytes).Some?
            && StoreIdentity(file, bytes) == Some(claim)
            && machine.phase == Some(checkpoint.value.phase)
            && Transition(machine, RunMachine.Resume) == Some(Machine(machine.phase, Running, None))
            && verdict.Written? && verdict.file.disposition.Running? && verdict.file.status.RunningStatus?
               && verdict.file.phase == machine.phase
  {
    GateAndStoreReadTheSameCheckpoint(bytes);
    PostureRules(MachineState(file, bytes).value, RunMachine.Resume);
  }

  /**
   The resume gate as a whole: it offers exactly the record of a readable checkpoint, of a run that
   failed, waits for something external or stands at an approved plan, unless that failure is fatal, the
   run was declared not resumable, or it speaks another planning protocol.
   */
  lemma OfferedExactlyWhen(file: RunFile, bytes: CheckpointFile, approved: bool, fatal: string -> bool,
                           record: ResumeCheckpoint)
    requires Coherent(file)
    ensures ResumeInfo(file, bytes, approved, fatal) == Some(record) <==>
            && ReadCheckpoint(bytes) == Success(Some(record))
            && (file.disposition.Failed? || file.disposition.WaitExternal?
                || (file.disposition.Running? && approved && record.phase.PlanApproval?))
            && (FailureReason(file.meta).Some? ==> !fatal(FailureReason(file.meta).value))
            && ("recovery_resumable" in file.meta ==> file.meta["recovery_resumable"] != JBool(false))
            && "planning_protocol" in file.meta && file.meta["planning_protocol"] == JString("v2")
  {
  }

  /** The gate never offers a completed run or one that waits for a human. */
  lemma OnlyStoppedRunsAreOffered(file: RunFile, bytes: CheckpointFile, approved: bool, fatal: string -> bool)
    requires Coherent(file) && ResumeInfo(file, bytes, approved, fatal).Some?
    ensures file.disposition.Failed? || file.disposition.WaitExternal? || (file.disposition.Running? && approved)
  {
  }
}
