/**
 The durable run state: one file, rewritten whole under one lock, and the
 checkpoint file that owns the phase and is written without that lock.

 A digest is modelled by the bytes it is taken of, so two digests are equal
 exactly when the bytes are.
 */
module StateStore {
  import opened Common
  import opened RunMachine

  // ------------------------------------------------------- the checkpoint file

  const SCHEMA_VERSION := 6

  /** A JSON value of a checkpoint field: null, a well-formed value, or anything else. */
  datatype Slot<+T> = Null | Given(value: T) | Invalid

  datatype Payload = Payload(
    schema: Slot<int>,
    phase: Slot<Phase>,
    iteration: Slot<int>,
    stepIndex: Slot<int>,
    lastGreen: Slot<string>,
    planSha: Slot<string>,
    exactFields: bool)

  datatype Bytes = Garbage(id: int) | Encoded(payload: Payload)

  type CheckpointFile = Option<Bytes>

  datatype CheckpointStamp = CheckpointStamp(schema: int, phase: Phase, digest: Bytes)

  /** The structural read of a checkpoint; `Failure` is an unreadable one, never a missing one. */
  function ReadStamp(file: CheckpointFile): Result<Option<CheckpointStamp>, ()> {
    match file
    case None => Success(None)
    case Some(Garbage(_)) => Failure(())
    case Some(Encoded(p)) =>
      if p.schema.Given? && p.phase.Given?
      then Success(Some(CheckpointStamp(p.schema.value, p.phase.value, file.value)))
      else Failure(())
  }

  /** The strict read of every control operation. */
  function ControlStamp(file: CheckpointFile): Result<Option<CheckpointStamp>, ()> {
    match ReadStamp(file)
    case Success(Some(stamp)) => if stamp.schema == SCHEMA_VERSION then Success(Some(stamp)) else Failure(())
    case other => other
  }

  /** The terminal reporting read: it never refuses. */
  function ReportingStamp(file: CheckpointFile): Option<CheckpointStamp> {
    match ReadStamp(file)
    case Success(stamp) => stamp
    case Failure(_) => None
  }

  // ------------------------------------------------------------ the state file

  datatype Json =
    | JNull
    | JString(text: string)
    | JBool(flag: bool)
    | JObject(fields: map<string, Json>)
    | JOther(id: int)

  /** `updatedAt` is the generation of the file: the time of its last write. */
  datatype RunFile = RunFile(
    status: Status,
    disposition: Disposition,
    phase: Option<Phase>,
    reason: Option<Reason>,
    updatedAt: nat,
    meta: map<string, Json>)

  const CONTROL_FIELDS := {"status", "disposition", "phase", "reason"}

  datatype Identity = Identity(phase: Option<Phase>, disposition: Disposition, reason: Option<Reason>, updatedAt: nat,
                               checkpoint: CheckpointFile)

  /** The `reason` entry of a failure payload, when there is one that is not null. */
  function RawFailureReason(meta: map<string, Json>): Json {
    if "failure" in meta && meta["failure"].JObject? && "reason" in meta["failure"].fields
    then meta["failure"].fields["reason"]
    else JNull
  }

  function FailureReason(meta: map<string, Json>): Option<Reason> {
    var raw := RawFailureReason(meta);
    if raw.JString? && raw.text != "" then Some(raw.text) else None
  }

  function RecordedPhase(file: RunFile, stamp: Option<CheckpointStamp>): Option<Phase> {
    if stamp.Some? then Some(stamp.value.phase) else file.phase
  }

  function RecordedMachine(file: RunFile, stamp: Option<CheckpointStamp>): Machine {
    var reason := if file.reason.Some? then file.reason else FailureReason(file.meta);
    Machine(RecordedPhase(file, stamp), file.disposition, reason)
  }

  /** The canonical control read of a run. */
  function MachineState(file: RunFile, checkpoint: CheckpointFile): Option<Machine> {
    match ControlStamp(checkpoint)
    case Failure(_) => None
    case Success(stamp) => Some(RecordedMachine(file, stamp))
  }

  function IdentityOf(machine: Machine, updatedAt: nat, checkpoint: CheckpointFile): Identity {
    Identity(machine.phase, machine.disposition, machine.reason, updatedAt, checkpoint)
  }

  /** The identity the store itself computes. */
  function StoreIdentity(file: RunFile, checkpoint: CheckpointFile): Option<Identity> {
    match MachineState(file, checkpoint)
    case None => None
    case Some(machine) => Some(IdentityOf(machine, file.updatedAt, checkpoint))
  }

  /** The read bridge for a recorded mapping alone. */
  function StatusOfRunState(file: RunFile): Option<Status> {
    match Project(RecordedMachine(file, None))
    case None => None
    case Some(outcome) => Some(outcome.status)
  }

  // --------------------------------------------------------------- operations

  datatype Op =
    | UpdateMetadata(expected: Option<Identity>, fields: map<string, Json>)
    | SetRunState(machine: Machine, fields: map<string, Json>)
    | TransitionRun(event: Event, claim: Identity, fields: map<string, Json>)
    | RecordFailure(failure: Reason, detail: Option<Json>, fields: map<string, Json>)

  /** `Written` replaced the file, `Declined` returned nothing, `Refused` raised; only the first one writes. */
  datatype Verdict = Written(file: RunFile) | Declined | Refused

  function Apply(file: RunFile, machine: Machine, fields: map<string, Json>, now: nat): Verdict {
    var named := RawFailureReason(fields);
    if !named.JNull? && !(machine.reason.Some? && named == JString(machine.reason.value)) then Refused
    else
      match Project(machine)
      case None => Refused
      case Some(outcome) =>
        Written(RunFile(outcome.status, machine.disposition, machine.phase, machine.reason, now,
            file.meta + (fields - {"updated_at"})))
  }

  /** Bind a requested machine to the phase the checkpoint owns, or refuse the contradiction. */
  function ResolvedMachine(file: RunFile, stamp: Option<CheckpointStamp>, machine: Machine): Option<Machine> {
    if stamp.Some? && machine.phase.Some? && machine.phase != Some(stamp.value.phase) then None
    else if stamp.Some? then Some(machine.(phase := Some(stamp.value.phase)))
    else Some(machine.(phase := if machine.phase.Some? then machine.phase else file.phase))
  }

  function FailurePayload(reason: Reason, detail: Option<Json>): Json {
    JObject(if detail.Some? then map["reason" := JString(reason), "detail" := detail.value]
        else map["reason" := JString(reason)])
  }

  /** What one operation does to the file it read, under the checkpoint it read. */
  function Perform(file: RunFile, checkpoint: CheckpointFile, op: Op, now: nat): Verdict {
    if op.fields.Keys !! CONTROL_FIELDS then
      match op
      case RecordFailure(reason, detail, fields) =>
        if "failure" in fields then Refused
        else Apply(file, Machine(RecordedPhase(file, ReportingStamp(checkpoint)), Failed, Some(reason)),
            fields["failure" := FailurePayload(reason, detail)], now)
      case UpdateMetadata(expected, fields) =>
        (match ControlStamp(checkpoint)
         case Failure(_) => Refused
         case Success(stamp) =>
           var machine := RecordedMachine(file, stamp);
           if expected.Some? && expected.value != IdentityOf(machine, file.updatedAt, checkpoint) then Declined
           else Apply(file, machine, fields, now))
      case SetRunState(wanted, fields) =>
        (match ControlStamp(checkpoint)
         case Failure(_) => Refused
         case Success(stamp) =>
           match ResolvedMachine(file, stamp, wanted)
           case None => Refused
           case Some(machine) => Apply(file, machine, fields, now))
      case TransitionRun(event, claim, fields) =>
        (match ControlStamp(checkpoint)
         case Failure(_) => Refused
         case Success(stamp) =>
           var machine := RecordedMachine(file, stamp);
           if claim != IdentityOf(machine, file.updatedAt, checkpoint) then Declined
           else
             match Transition(machine, event)
             case None => Refused
             case Some(next) => Apply(file, next, fields, now))
    else Refused
  }

  function After(file: RunFile, verdict: Verdict): RunFile {
    if verdict.Written? then verdict.file else file
  }

  // ------------------------------------------------------------- the store itself

  function InitialFile(started: nat, meta: map<string, Json>): RunFile {
    RunFile(RunningStatus, Running, None, None, started, meta)
  }

  /** The two files of one run.  Every method is one locked read, merge and replacement. */
  class RunStateStore {
    var state: RunFile
    var checkpoint: CheckpointFile

    constructor (started: nat, meta: map<string, Json>)
      ensures state == InitialFile(started, meta) && checkpoint == None
    {
      state := InitialFile(started, meta);
      checkpoint := None;
    }

    /** Replace the control fields one by one and merge the caller's metadata, unless the state has no status. */
    method Write(machine: Machine, fields: map<string, Json>, now: nat) returns (written: bool)
      modifies this`state
      ensures written == Apply(old(state), machine, fields, now).Written?
      ensures state == After(old(state), Apply(old(state), machine, fields, now))
    {
      var named := RawFailureReason(fields);
      if !named.JNull? && (machine.reason.None? || named != JString(machine.reason.value)) {
        return false;
      }
      var outcome := Project(machine);
      if outcome.None? {
        return false;
      }
      state := state.(status := outcome.value.status, disposition := machine.disposition);
      state := state.(phase := machine.phase, reason := machine.reason);
      state := state.(meta := state.meta + (fields - {"updated_at"}));
      state := state.(updatedAt := now);
      return true;
    }

    method UpdateMetadata(expected: Option<Identity>, fields: map<string, Json>, now: nat) returns (written: bool)
      modifies this`state
      ensures written == Perform(old(state), checkpoint, Op.UpdateMetadata(expected, fields), now).Written?
      ensures state == After(old(state), Perform(old(state), checkpoint, Op.UpdateMetadata(expected, fields), now))
    {
      var stamp := ControlStamp(checkpoint);
      if !(fields.Keys !! CONTROL_FIELDS) || stamp.Failure? {
        return false;
      }
      var machine := RecordedMachine(state, stamp.value);
      if expected.Some? && IdentityOf(machine, state.updatedAt, checkpoint) != expected.value {
        return false;
      }
      written := Write(machine, fields, now);
    }

    method SetRunState(wanted: Machine, fields: map<string, Json>, now: nat) returns (written: bool)
      modifies this`state
      ensures written == Perform(old(state), checkpoint, Op.SetRunState(wanted, fields), now).Written?
      ensures state == After(old(state), Perform(old(state), checkpoint, Op.SetRunState(wanted, fields), now))
    {
      var stamp := ControlStamp(checkpoint);
      if !(fields.Keys !! CONTROL_FIELDS) || stamp.Failure? {
        return false;
      }
      var machine := ResolvedMachine(state, stamp.value, wanted);
      if machine.None? {
        return false;
      }
      written := Write(machine.value, fields, now);
    }

    method TransitionRun(event: Event, claim: Identity, fields: map<string, Json>, now: nat) returns (written: bool)
      modifies this`state
      ensures written == Perform(old(state), checkpoint, Op.TransitionRun(event, claim, fields), now).Written?
      ensures state == After(old(state), Perform(old(state), checkpoint, Op.TransitionRun(event, claim, fields), now))
    {
      var stamp := ControlStamp(checkpoint);
      if !(fields.Keys !! CONTROL_FIELDS) || stamp.Failure? {
        return false;
      }
      var machine := RecordedMachine(state, stamp.value);
      if IdentityOf(machine, state.updatedAt, checkpoint) != claim {
        return false;
      }
      var next := Transition(machine, event);
      if next.None? {
        return false;
      }
      written := Write(next.value, fields, now);
    }

    method RecordFailure(reason: Reason, detail: Option<Json>, fields: map<string, Json>, now: nat)
      returns (written: bool)
      modifies this`state
      ensures written == Perform(old(state), checkpoint, Op.RecordFailure(reason, detail, fields), now).Written?
      ensures state == After(old(state), Perform(old(state), checkpoint, Op.RecordFailure(reason, detail, fields), now))
    {
      if !(fields.Keys !! CONTROL_FIELDS) || "failure" in fields {
        return false;
      }
      var machine := Machine(RecordedPhase(state, ReportingStamp(checkpoint)), Failed, Some(reason));
      written := Write(machine, fields["failure" := FailurePayload(reason, detail)], now);
    }
  }

  // ---------------------------------------------------- what every file satisfies

  /** The recorded status is the projection of the recorded phase, posture and reason. */
  ghost predicate Coherent(file: RunFile) {
    var outcome := Project(Machine(file.phase, file.disposition, file.reason));
    outcome.Some? && outcome.value.status == file.status
  }

  lemma OperationsKeepCoherence(file: RunFile, checkpoint: CheckpointFile, op: Op, now: nat)
    requires Coherent(file)
    ensures Coherent(After(file, Perform(file, checkpoint, op, now)))
  {
  }

  /** An accepted metadata write, even beside a stale failure payload, never moves the machine. */
  lemma MetadataNeverMovesTheMachine(file: RunFile, checkpoint: CheckpointFile, expected: Option<Identity>,
                                     fields: map<string, Json>, now: nat)
    requires Perform(file, checkpoint, Op.UpdateMetadata(expected, fields), now).Written?
    ensures var written := Perform(file, checkpoint, Op.UpdateMetadata(expected, fields), now).file;
            MachineState(written, checkpoint) == MachineState(file, checkpoint)
  {
    var written := Perform(file, checkpoint, Op.UpdateMetadata(expected, fields), now).file;
    var machine := MachineState(file, checkpoint).value;
    assert written.reason == machine.reason;
    if "failure" in fields {
      assert written.meta["failure"] == fields["failure"];
      assert RawFailureReason(written.meta) == RawFailureReason(fields);
    } else {
      assert RawFailureReason(written.meta) == RawFailureReason(file.meta);
    }
  }

  /**
   A written transition reads back as the state it computed exactly when the
   checkpoint, if any, already names its phase, and either it has a reason of its
   own or no failure reason stays recorded beside it.
   */
  lemma TransitionReadsBackExactlyWhen(file: RunFile, checkpoint: CheckpointFile, event: Event, claim: Identity,
                                       fields: map<string, Json>, now: nat)
    requires Perform(file, checkpoint, Op.TransitionRun(event, claim, fields), now).Written?
    ensures var written := Perform(file, checkpoint, Op.TransitionRun(event, claim, fields), now).file;
            var next := Transition(MachineState(file, checkpoint).value, event);
            var stamp := ControlStamp(checkpoint).value;
            && next.Some?
            && (MachineState(written, checkpoint) == next <==>
                && (stamp.None? || next.value.phase == Some(stamp.value.phase))
                && (next.value.reason.Some? || FailureReason(file.meta + (fields - {"updated_at"})).None?))
  {
    PhaseMovesOnlyByAdvance(MachineState(file, checkpoint).value, event);
  }

  // ------------------------------------------------------- compare and set

  /** Two reads of a run that no control operation could tell apart. */
  predicate SameRun(file: RunFile, checkpoint: CheckpointFile, file0: RunFile, checkpoint0: CheckpointFile) {
    && checkpoint == checkpoint0
    && file.updatedAt == file0.updatedAt
    && MachineState(file, checkpoint) == MachineState(file0, checkpoint0)
  }

  /** A caller's fields may not name the control fields. */
  predicate Admissible(fields: map<string, Json>) {
    fields.Keys !! CONTROL_FIELDS
  }

  /** A failure payload among the fields names the reason of the machine, if it names any. */
  predicate NamesReason(fields: map<string, Json>, reason: Option<Reason>) {
    RawFailureReason(fields).JNull? || (reason.Some? && RawFailureReason(fields) == JString(reason.value))
  }

  /**
   A claim made on an earlier read is declined exactly when the checkpoint bytes, the time of the last
   write or the machine state are no longer what that read saw.  Otherwise it is written exactly when the
   machine that was read accepts the event, and then the file holds the state it leads to.
   */
  lemma ClaimIsDeclinedExactlyWhen(file: RunFile, checkpoint: CheckpointFile, file0: RunFile,
                                   checkpoint0: CheckpointFile, event: Event, fields: map<string, Json>, now: nat)
    requires StoreIdentity(file0, checkpoint0).Some? && MachineState(file, checkpoint).Some? && Admissible(fields)
    ensures var claim := StoreIdentity(file0, checkpoint0).value;
            var verdict := Perform(file, checkpoint, Op.TransitionRun(event, claim, fields), now);
            var next := Transition(MachineState(file0, checkpoint0).value, event);
            && (verdict == Declined <==> !SameRun(file, checkpoint, file0, checkpoint0))
            && (verdict.Written? <==>
                 SameRun(file, checkpoint, file0, checkpoint0) && next.Some? && NamesReason(fields, next.value.reason))
            && (verdict.Written? ==>
                 && Machine(verdict.file.phase, verdict.file.disposition, verdict.file.reason) == next.value
                 && verdict.file.updatedAt == now)
  {
    var machine := MachineState(file, checkpoint).value;
    PostureRules(machine, event);
    if Transition(machine, event).Some? {
      PhaseMovesOnlyByAdvance(machine, event);
    }
  }

  /** The same for a metadata write that expects an earlier read; it is never for a run that has no status. */
  lemma StaleMetadataIsDeclinedExactlyWhen(file: RunFile, checkpoint: CheckpointFile, file0: RunFile,
                                           checkpoint0: CheckpointFile, fields: map<string, Json>, now: nat)
    requires StoreIdentity(file0, checkpoint0).Some? && MachineState(file, checkpoint).Some? && Admissible(fields)
    ensures var machine := MachineState(file0, checkpoint0).value;
            var expected := StoreIdentity(file0, checkpoint0);
            var verdict := Perform(file, checkpoint, Op.UpdateMetadata(expected, fields), now);
            && (verdict == Declined <==> !SameRun(file, checkpoint, file0, checkpoint0))
            && (verdict.Written? <==>
                 && SameRun(file, checkpoint, file0, checkpoint0) && Project(machine).Some?
                 && NamesReason(fields, machine.reason))
  {
  }

  /** No control operation goes past a checkpoint that is garbage, of another schema or without a phase. */
  lemma UnreadableCheckpointStopsControl(file: RunFile, bytes: Bytes, op: Op, now: nat)
    requires !op.RecordFailure?
    requires bytes.Encoded? ==> bytes.payload.schema != Given(SCHEMA_VERSION) || !bytes.payload.phase.Given?
    ensures Perform(file, Some(bytes), op, now) == Refused
  {
  }

  /** Whatever the two files were, readable or not, nothing is written on an outdated identity. */
  lemma WrittenMeansNothingMoved(file: RunFile, checkpoint: CheckpointFile, file0: RunFile,
                                 checkpoint0: CheckpointFile, op: Op, now: nat)
    requires StoreIdentity(file0, checkpoint0).Some?
    requires op.TransitionRun? || op.UpdateMetadata?
    requires op.TransitionRun? ==> op.claim == StoreIdentity(file0, checkpoint0).value
    requires op.UpdateMetadata? ==> op.expected == StoreIdentity(file0, checkpoint0)
    requires Perform(file, checkpoint, op, now).Written?
    ensures SameRun(file, checkpoint, file0, checkpoint0)
  {
  }

  // ---------------------------------------------------------- what a write leaves

  /**
   A posture is written under the phase the checkpoint owns, or without one under the wanted or else the
   recorded phase; a wanted phase against the checkpoint is refused.
   */
  lemma PostureIsWrittenExactlyWhen(file: RunFile, checkpoint: CheckpointFile, wanted: Machine,
                                    fields: map<string, Json>, now: nat)
    requires MachineState(file, checkpoint).Some? && Admissible(fields) && RawFailureReason(fields).JNull?
    ensures var owner := ControlStamp(checkpoint).value;
            var verdict := Perform(file, checkpoint, Op.SetRunState(wanted, fields), now);
            && (verdict.Written? <==>
                 && (owner.Some? && wanted.phase.Some? ==> wanted.phase.value == owner.value.phase)
                 && (wanted.disposition.WaitHuman? ==> wanted.reason == Some(SPEC_DECISION)))
            && (verdict.Written? ==>
                 && verdict.file.disposition == wanted.disposition && verdict.file.reason == wanted.reason
                 && verdict.file.updatedAt == now
                 && (owner.Some? ==> verdict.file.phase == Some(owner.value.phase))
                 && (owner.None? ==> verdict.file.phase == if wanted.phase.Some? then wanted.phase else file.phase))
  {
  }

  /**
   A failure is always recorded, even beside a checkpoint that cannot be read: the run is then failed at
   the phase it was in, for that reason, and a control read under a readable checkpoint says so.
   */
  lemma FailureIsAlwaysRecorded(file: RunFile, checkpoint: CheckpointFile, reason: Reason, detail: Option<Json>,
                                fields: map<string, Json>, now: nat)
    requires Admissible(fields) && "failure" !in fields
    ensures var verdict := Perform(file, checkpoint, Op.RecordFailure(reason, detail, fields), now);
            && verdict.Written?
            && verdict.file.status == FailedStatus && verdict.file.disposition == Failed
            && verdict.file.reason == Some(reason) && FailureReason(verdict.file.meta) == Some(reason)
            && (ReportingStamp(checkpoint).None? ==> verdict.file.phase == file.phase)
            && (MachineState(file, checkpoint).Some? ==>
                 MachineState(verdict.file, checkpoint)
                   == Some(Machine(MachineState(file, checkpoint).value.phase, Failed, Some(reason))))
  {
    var verdict := Perform(file, checkpoint, Op.RecordFailure(reason, detail, fields), now);
    var merged := fields["failure" := FailurePayload(reason, detail)];
    assert RawFailureReason(merged) == JString(reason);
    assert verdict.file.meta["failure"] == FailurePayload(reason, detail);
  }

  // ------------------------------------------------- histories under one lock

  /** One completed critical section: the operation, the checkpoint it read, the time it stamped. */
  datatype Entry = Entry(op: Op, checkpoint: CheckpointFile, now: nat)

  function Replay(start: RunFile, log: seq<Entry>): RunFile {
    if log == [] then start
    else
      var before := Replay(start, log[..|log| - 1]);
      var e := log[|log| - 1];
      After(before, Perform(before, e.checkpoint, e.op, e.now))
  }

  /** What entry `i` decided, on the file all earlier entries left. */
  function VerdictAt(start: RunFile, log: seq<Entry>, i: nat): Verdict
    requires i < |log|
  {
    Perform(Replay(start, log[..i]), log[i].checkpoint, log[i].op, log[i].now)
  }

  lemma ReplayStep(start: RunFile, log: seq<Entry>, i: nat)
    requires i < |log|
    ensures Replay(start, log[..i + 1]) == After(Replay(start, log[..i]), VerdictAt(start, log, i))
  {
    assert log[..i + 1][..i] == log[..i];
  }

  /** Every file the store can reach is coherent, and both readings of its status agree. */
  lemma {:induction false} ReachableFilesAreCoherent(start: RunFile, log: seq<Entry>)
    requires Coherent(start)
    ensures Coherent(Replay(start, log))
    ensures StatusOfRunState(Replay(start, log)) == Some(Replay(start, log).status)
    decreases |log|
  {
    if log != [] {
      ReachableFilesAreCoherent(start, log[..|log| - 1]);
    }
  }

  /** The keys a write merges: its own, and the failure payload it records. */
  function MergedFields(op: Op): set<string> {
    op.fields.Keys + if op.RecordFailure? then {"failure"} else {}
  }

  /** One write changes the metadata on its own keys only. */
  lemma WritesMergeTheirFields(file: RunFile, checkpoint: CheckpointFile, op: Op, now: nat, key: string)
    requires Perform(file, checkpoint, op, now).Written? && key != "updated_at"
    ensures var meta := Perform(file, checkpoint, op, now).file.meta;
            && (key in op.fields ==> key in meta && meta[key] == op.fields[key])
            && (key !in MergedFields(op) ==>
                 (key in meta <==> key in file.meta) && (key in meta ==> meta[key] == file.meta[key]))
  {
  }

  /** No lost field: what a write merged is in the file until a later write of the same key. */
  lemma {:induction false} NoLostField(start: RunFile, log: seq<Entry>, i: nat, key: string, n: nat)
    requires i < n <= |log| && VerdictAt(start, log, i).Written?
    requires key in log[i].op.fields && key != "updated_at"
    requires forall k :: i < k < n && VerdictAt(start, log, k).Written? ==> key !in MergedFields(log[k].op)
    ensures var final := Replay(start, log[..n]);
            key in final.meta && final.meta[key] == log[i].op.fields[key]
    decreases n
  {
    var last := n - 1;
    ReplayStep(start, log, last);
    if last > i {
      NoLostField(start, log, i, key, last);
    }
    if VerdictAt(start, log, last).Written? {
      WritesMergeTheirFields(Replay(start, log[..last]), log[last].checkpoint, log[last].op, log[last].now, key);
    }
  }

  ghost predicate DistinctStamps(start: RunFile, log: seq<Entry>) {
    && (forall i :: 0 <= i < |log| ==> log[i].now != start.updatedAt)
    && forall i, j :: 0 <= i < j < |log| ==> log[i].now != log[j].now
  }

  /** The generation of a file is the stamp of one of the writes that made it. */
  lemma {:induction false} GenerationComesFromAWrite(start: RunFile, log: seq<Entry>, since: nat, n: nat)
    requires since <= n <= |log|
    ensures var g := Replay(start, log[..n]).updatedAt;
            g == Replay(start, log[..since]).updatedAt || exists k :: since <= k < n && g == log[k].now
    decreases n
  {
    if n > since {
      GenerationComesFromAWrite(start, log, since, n - 1);
      ReplayStep(start, log, n - 1);
    }
  }

  /** Among claims that observed one identity, at most one is ever written. */
  lemma AtMostOneClaimSucceeds(start: RunFile, log: seq<Entry>, i: nat, j: nat)
    requires DistinctStamps(start, log) && i < j < |log|
    requires log[i].op.TransitionRun? && log[j].op.TransitionRun? && log[i].op.claim == log[j].op.claim
    ensures !(VerdictAt(start, log, i).Written? && VerdictAt(start, log, j).Written?)
  {
    if VerdictAt(start, log, i).Written? {
      var observed := log[i].op.claim.updatedAt;
      assert observed == Replay(start, log[..i]).updatedAt;
      GenerationComesFromAWrite(start, log, 0, i);
      assert Replay(start, log[..0]).updatedAt == start.updatedAt;
      ReplayStep(start, log, i);
      assert Replay(start, log[..i + 1]).updatedAt == log[i].now;
      GenerationComesFromAWrite(start, log, i + 1, j);
      assert Replay(start, log[..j]).updatedAt != observed;
    }
  }

  // ---------------------------------------------- any interleaving of processes

  /** Where one process stands: outside, waiting for the lock, or inside with what it has read so far. */
  datatype Stage =
    | Outside
    | Waiting(op: Op)
    | Holding(op: Op)
    | Loaded(op: Op, file: RunFile)
    | Stamped(op: Op, file: RunFile, checkpoint: CheckpointFile)

  datatype World = World(file: RunFile, checkpoint: CheckpointFile, holder: Option<nat>, stages: map<nat, Stage>,
                         log: seq<Entry>)

  /** One step of process `pid`, or an unlocked checkpoint write by anyone. */
  datatype Move =
    | Call(pid: nat, op: Op)
    | Acquire(pid: nat)
    | Load(pid: nat)
    | ReadCheckpoint(pid: nat)
    | Finish(pid: nat, now: nat)
    | Crash(pid: nat)
    | WriteCheckpoint(bytes: CheckpointFile)

  function StageOf(w: World, pid: nat): Stage {
    if pid in w.stages then w.stages[pid] else Outside
  }

  /** A move that is not possible in the present world leaves it as it is. */
  function Next(w: World, m: Move): World {
    match m
    case WriteCheckpoint(bytes) => w.(checkpoint := bytes)
    case Call(pid, op) =>
      if StageOf(w, pid).Outside? then w.(stages := w.stages[pid := Waiting(op)]) else w
    case Acquire(pid) =>
      if StageOf(w, pid).Waiting? && w.holder.None?
      then w.(holder := Some(pid), stages := w.stages[pid := Holding(w.stages[pid].op)]) else w
    case Load(pid) =>
      if StageOf(w, pid).Holding? then w.(stages := w.stages[pid := Loaded(w.stages[pid].op, w.file)]) else w
    case ReadCheckpoint(pid) =>
      if StageOf(w, pid).Loaded?
      then w.(stages := w.stages[pid := Stamped(w.stages[pid].op, w.stages[pid].file, w.checkpoint)]) else w
    case Finish(pid, now) =>
      var stage := StageOf(w, pid);
      if stage.Stamped?
      then World(After(w.file, Perform(stage.file, stage.checkpoint, stage.op, now)), w.checkpoint, None,
                 w.stages[pid := Outside], w.log + [Entry(stage.op, stage.checkpoint, now)])
      else w
    case Crash(pid) =>
      w.(holder := if w.holder == Some(pid) then None else w.holder, stages := w.stages[pid := Outside])
  }

  function Play(w: World, moves: seq<Move>): World {
    if moves == [] then w else Next(Play(w, moves[..|moves| - 1]), moves[|moves| - 1])
  }

  /** The moves of one call that nobody interrupts. */
  function Uninterrupted(pid: nat, op: Op, now: nat): seq<Move> {
    [Call(pid, op)] + [Acquire(pid)] + [Load(pid)] + [ReadCheckpoint(pid)] + [Finish(pid, now)]
  }

  lemma PlayOneMore(w: World, moves: seq<Move>, m: Move)
    ensures Play(w, moves + [m]) == Next(Play(w, moves), m)
  {
    assert (moves + [m])[..|moves|] == moves;
  }

  /** With the lock free, the call is performed on the present file under the present checkpoint. */
  lemma UninterruptedCallIsPerformed(w: World, pid: nat, op: Op, now: nat)
    requires StageOf(w, pid).Outside? && w.holder.None?
    ensures var end := Play(w, Uninterrupted(pid, op, now));
            && end.file == After(w.file, Perform(w.file, w.checkpoint, op, now))
            && end.log == w.log + [Entry(op, w.checkpoint, now)]
            && end.checkpoint == w.checkpoint && end.holder.None? && StageOf(end, pid).Outside?
  {
    var one := [Call(pid, op)];
    assert one == [] + one;
    PlayOneMore(w, [], Call(pid, op));
    PlayOneMore(w, one, Acquire(pid));
    PlayOneMore(w, one + [Acquire(pid)], Load(pid));
    PlayOneMore(w, one + [Acquire(pid)] + [Load(pid)], ReadCheckpoint(pid));
    PlayOneMore(w, one + [Acquire(pid)] + [Load(pid)] + [ReadCheckpoint(pid)], Finish(pid, now));
    var called := Next(w, Call(pid, op));
    var held := Next(called, Acquire(pid));
    var loaded := Next(held, Load(pid));
    assert StageOf(loaded, pid) == Loaded(op, w.file);
  }

  /** Only the lock holder is inside, and what it has loaded is still the file. */
  ghost predicate Locked(w: World) {
    forall pid :: pid in w.stages ==>
      && (w.stages[pid].Holding? || w.stages[pid].Loaded? || w.stages[pid].Stamped? ==> w.holder == Some(pid))
      && (w.stages[pid].Loaded? || w.stages[pid].Stamped? ==> w.stages[pid].file == w.file)
  }

  lemma MovesKeepTheLock(start: RunFile, w: World, m: Move)
    requires Locked(w) && w.file == Replay(start, w.log)
    ensures Locked(Next(w, m)) && Next(w, m).file == Replay(start, Next(w, m).log)
  {
    if m.Finish? && StageOf(w, m.pid).Stamped? {
      var log := Next(w, m).log;
      assert log[..|log| - 1] == w.log;
    }
  }

  /**
   However the processes interleave, crash and rewrite the checkpoint, the file is
   the sequential merge of the completed critical sections, in lock order.
   */
  lemma {:induction false} FileIsTheSequentialMerge(w: World, moves: seq<Move>)
    requires w.stages == map[] && w.log == []
    ensures Locked(Play(w, moves)) && Play(w, moves).file == Replay(w.file, Play(w, moves).log)
    decreases |moves|
  {
    if moves != [] {
      FileIsTheSequentialMerge(w, moves[..|moves| - 1]);
      MovesKeepTheLock(w.file, Play(w, moves[..|moves| - 1]), moves[|moves| - 1]);
    }
  }
}
