/**
 Publishing the approved commit: a compare-and-swap of the local base branch, then
 a push, retried after a crash or a failed push, beside any other writer.

 Commits are immutable, so the graph is taken with every object that any writer
 adds meanwhile.  Git only accepts a push that fast-forwards the remote branch;
 whether it is delivered and reported is the world's choice.
 */
module Publication {
  import opened Common
  import opened CommitGraph

  /** What is to be published; `records` absent means the direct-parent contract. */
  datatype Request = Request(base: Sha, commit: Sha, approvedTree: Tree, expectedParent: Option<Sha>,
                             records: Option<seq<Record>>)

  datatype Refs = Refs(local: Option<Sha>, tracking: Option<Sha>, remote: Option<Sha>, runBranch: Option<Sha>)

  datatype PushOutcome = Delivered | DeliveredUnreported | Undelivered

  datatype Outcome = Published(pushed: bool) | BaseMoved | PushFailed | Refused

  // ------------------------------------------------------------- validation

  /** The commit is what was approved, on top of the base, by the chain or by the direct-parent contract. */
  ghost predicate Approved(g: Graph, q: Request) {
    match q.records
    case Some(records) => exists chain ::
        chain != [] && Accepts(g, q.base, q.commit, records, Some(q.approvedTree), chain)
    case None =>
      var parent := if q.expectedParent.Some? then q.expectedParent.value else q.base;
      && q.commit in g && g[q.commit].parents == [parent]
      && (parent == q.base || (parent in g && g[parent].parents == [q.base]))
      && g[q.commit].tree == q.approvedTree
  }

  /** Either contract leads from the base to the commit by single parents, to the approved tree. */
  lemma ApprovedCommitsDescend(g: Graph, q: Request)
    requires Acyclic(g) && Approved(g, q)
    ensures exists chain :: chain != [] && Chain(g, q.base, q.commit, chain)
    ensures g[q.commit].tree == q.approvedTree
    ensures IsAncestor(g, q.base, q.commit) && q.base != q.commit
  {
    ApprovedExactlyWhen(g, q);
    var chain :| Meets(g, q, chain);
    ChainReaches(g, q.base, q.commit, chain);
    ChainClimbs(g, q.base, q.commit, chain);
  }

  /** What each contract asks of the chain from the base to the commit. */
  ghost predicate Meets(g: Graph, q: Request, chain: seq<Sha>) {
    && Chain(g, q.base, q.commit, chain) && chain != []
    && g[q.commit].tree == q.approvedTree
    && match q.records
       case Some(records) => records == [] || RecordsMatch(g, q.base, chain, records)
       case None =>
         && |chain| <= 2
         && (q.expectedParent == Some(Before(q.base, chain, |chain| - 1)) || (q.expectedParent.None? && |chain| == 1))
  }

  /**
   With records, any chain that they describe is approved.  Without them, exactly the chains of one or
   two commits whose last parent is the expected one; it may only be left out for one commit.
   */
  lemma ApprovedExactlyWhen(g: Graph, q: Request)
    requires Acyclic(g)
    ensures Approved(g, q) <==> exists chain :: Meets(g, q, chain)
  {
    if q.records.None? {
      if Approved(g, q) {
        var chain := DirectChain(g, q);
        assert Meets(g, q, chain);
      } else if exists chain :: Meets(g, q, chain) {
        var chain :| Meets(g, q, chain);
        MeetingIsDirect(g, q, chain);
      }
    } else {
      assert forall chain :: Meets(g, q, chain) <==>
        chain != [] && Accepts(g, q.base, q.commit, q.records.value, Some(q.approvedTree), chain);
    }
  }

  lemma DirectChain(g: Graph, q: Request) returns (chain: seq<Sha>)
    requires Acyclic(g) && q.records.None? && Approved(g, q)
    ensures Meets(g, q, chain)
  {
    var parent := g[q.commit].parents[0];
    chain := if parent == q.base then [q.commit] else [parent, q.commit];
    if parent != q.base {
      assert g[parent].parents[0] == q.base;
    }
  }

  lemma MeetingIsDirect(g: Graph, q: Request, chain: seq<Sha>)
    requires Acyclic(g) && q.records.None? && Meets(g, q, chain)
    ensures Approved(g, q)
  {
    var last := |chain| - 1;
    assert chain[last] == q.commit && g[chain[last]].parents == [Before(q.base, chain, last)];
    if last == 1 {
      assert chain[0] in g && g[chain[0]].parents == [q.base];
    }
  }

  method Validate(g: Graph, q: Request) returns (ok: bool)
    requires Acyclic(g)
    ensures ok <==> Approved(g, q)
  {
    if q.records.Some? {
      var chain := ValidateLinearCommitChain(g, q.base, q.commit, q.records.value, Some(q.approvedTree));
      return chain.Success? && chain.value != [];
    }
    var parent := if q.expectedParent.Some? then q.expectedParent.value else q.base;
    if q.commit !in g || g[q.commit].parents != [parent] {
      return false;
    }
    if parent != q.base && (parent !in g || g[parent].parents != [q.base]) {
      return false;
    }
    return g[q.commit].tree == q.approvedTree;
  }

  // --------------------------------------------------------------- one attempt

  /** Git's answer to a push of the commit to the base branch. */
  function Push(g: Graph, q: Request, refs: Refs, push: PushOutcome): (Refs, bool)
    requires Acyclic(g)
  {
    if push.Undelivered? || (refs.remote.Some? && !IsAncestor(g, refs.remote.value, q.commit)) then (refs, false)
    else if push.DeliveredUnreported? then (refs.(remote := Some(q.commit)), false)
    else (refs.(remote := Some(q.commit), tracking := Some(q.commit)), true)
  }

  /** An attempt nobody disturbs. */
  ghost function PublishOnce(g: Graph, q: Request, refs: Refs, push: PushOutcome): (Refs, Outcome)
    requires Acyclic(g)
  {
    if refs.local.None? || refs.tracking.None? || !Approved(g, q) || refs.runBranch != Some(q.commit) then
      (refs, Refused)
    else if refs.local != Some(q.commit) && refs.local != Some(q.base) then (refs, BaseMoved)
    else if refs.local == Some(q.commit) == refs.tracking then (refs, Published(false))
    else if refs.tracking != Some(q.base) then (refs, BaseMoved)
    else
      var (after, ok) := Push(g, q, refs.(local := Some(q.commit)), push);
      (after, if ok then Published(true) else PushFailed)
  }

  class PublicationRepository {
    var local: Option<Sha>
    var tracking: Option<Sha>
    var remote: Option<Sha>
    var runBranch: Option<Sha>

    constructor (local: Option<Sha>, tracking: Option<Sha>, remote: Option<Sha>, runBranch: Option<Sha>)
      ensures Table() == Refs(local, tracking, remote, runBranch)
    {
      this.local, this.tracking, this.remote, this.runBranch := local, tracking, remote, runBranch;
    }

    function Table(): Refs
      reads this
    {
      Refs(local, tracking, remote, runBranch)
    }

    method PublishFastForwardBase(g: Graph, q: Request, push: PushOutcome) returns (outcome: Outcome)
      requires Acyclic(g)
      modifies this`local, this`tracking, this`remote
      ensures (Table(), outcome) == PublishOnce(g, q, old(Table()), push)
    {
      if local.None? || tracking.None? {
        return Refused;
      }
      var valid := Validate(g, q);
      if !valid || runBranch != Some(q.commit) {
        return Refused;
      }
      var alreadyLocal := local == Some(q.commit);
      if !alreadyLocal && local != Some(q.base) {
        return BaseMoved;
      }
      if alreadyLocal && tracking == Some(q.commit) {
        return Published(false);
      }
      if tracking != Some(q.base) {
        return BaseMoved;
      }
      if !alreadyLocal {
        local := Some(q.commit);
      }
      var pushed := Push(g, q, Table(), push);
      tracking, remote := pushed.0.tracking, pushed.0.remote;
      return if pushed.1 then Published(true) else PushFailed;
    }
  }

  /** A push reaches the remote base: it is delivered over an absent ref or as a fast-forward. */
  predicate Reaches(g: Graph, q: Request, refs: Refs, push: PushOutcome)
    requires Acyclic(g)
  {
    !push.Undelivered? && (refs.remote.Some? ==> IsAncestor(g, refs.remote.value, q.commit))
  }

  /** The base is where the run left it, or already moved locally, and only the push is missing. */
  predicate Publishable(q: Request, refs: Refs) {
    && refs.runBranch == Some(q.commit) && refs.tracking == Some(q.base)
    && (refs.local == Some(q.base) || refs.local == Some(q.commit))
  }

  /** What an attempt answers, outcome by outcome; the base moved in all other cases. */
  lemma OutcomesExactlyWhen(g: Graph, q: Request, refs: Refs, push: PushOutcome)
    requires Acyclic(g)
    ensures var outcome := PublishOnce(g, q, refs, push).1;
            && (outcome == Published(true) <==>
                 Approved(g, q) && Publishable(q, refs) && push.Delivered? && Reaches(g, q, refs, push))
            && (outcome == PushFailed <==>
                 Approved(g, q) && Publishable(q, refs) && !(push.Delivered? && Reaches(g, q, refs, push)))
            && (outcome == Published(false) <==>
                 Approved(g, q) && refs.runBranch == refs.local == refs.tracking == Some(q.commit))
            && (outcome == Refused <==>
                 !Approved(g, q) || refs.runBranch != Some(q.commit) || refs.local.None? || refs.tracking.None?)
  {
    if Approved(g, q) {
      ApprovedCommitsDescend(g, q);
    }
  }

  /**
   What an attempt moves: refs only for an approved commit over a tracking base that did not move, the
   local one always and the remote one exactly when the push reaches it.
   */
  lemma AttemptMovesExactly(g: Graph, q: Request, refs: Refs, push: PushOutcome)
    requires Acyclic(g)
    ensures var (after, outcome) := PublishOnce(g, q, refs, push);
            if Approved(g, q) && Publishable(q, refs) then
              && after.local == Some(q.commit) && after.runBranch == refs.runBranch
              && after.remote == (if Reaches(g, q, refs, push) then Some(q.commit) else refs.remote)
              && after.tracking == (if outcome == Published(true) then Some(q.commit) else refs.tracking)
            else after == refs
  {
    if Approved(g, q) {
      ApprovedCommitsDescend(g, q);
    }
  }

  // -------------------------------------------- any interleaving of attempts

  /** Where one publisher stands; the values are what it read, possibly stale by now. */
  datatype Stage =
    | Idle
    | LocalRead(local: Option<Sha>)
    | BothRead(local: Option<Sha>, tracking: Option<Sha>)
    | ToSwap
    | Swapped
    | ToPush
    | Done(outcome: Outcome)

  /** A ref write by a publisher. */
  datatype Write = LocalWrite(before: Option<Sha>, after: Sha) | RemoteWrite(before: Option<Sha>, after: Sha)

  datatype World = World(refs: Refs, stages: map<nat, Stage>, writes: seq<Write>)

  /** One atomic command of a publisher, its restart, its crash, or any move of the refs by someone else. */
  datatype Move = Advance(pid: nat, push: PushOutcome) | Restart(pid: nat) | Crash(pid: nat) | Outside(refs: Refs)

  function StageOf(w: World, pid: nat): Stage {
    if pid in w.stages then w.stages[pid] else Idle
  }

  /** What the checks between the reads and the swap decide. */
  ghost function Decide(g: Graph, q: Request, local: Option<Sha>, tracking: Option<Sha>,
                        runBranch: Option<Sha>): Stage {
    if local.None? || tracking.None? || !Approved(g, q) || runBranch != Some(q.commit) then Done(Refused)
    else if local != Some(q.commit) && local != Some(q.base) then Done(BaseMoved)
    else if local == Some(q.commit) == tracking then Done(Published(false))
    else if tracking != Some(q.base) then Done(BaseMoved)
    else if local == Some(q.commit) then ToPush
    else ToSwap
  }

  ghost function AdvanceOne(g: Graph, q: Request, w: World, pid: nat, push: PushOutcome): World
    requires Acyclic(g)
  {
    match StageOf(w, pid)
    case Idle => w.(stages := w.stages[pid := LocalRead(w.refs.local)])
    case LocalRead(local) => w.(stages := w.stages[pid := BothRead(local, w.refs.tracking)])
    case BothRead(local, tracking) => w.(stages := w.stages[pid := Decide(g, q, local, tracking, w.refs.runBranch)])
    case ToSwap =>
      if w.refs.local != Some(q.base) then w.(stages := w.stages[pid := Done(BaseMoved)])
      else World(w.refs.(local := Some(q.commit)), w.stages[pid := Swapped],
          w.writes + [LocalWrite(w.refs.local, q.commit)])
    case Swapped => w.(stages := w.stages[pid := if w.refs.local == Some(q.commit) then ToPush else Done(BaseMoved)])
    case ToPush =>
      var (after, ok) := Push(g, q, w.refs, push);
      World(after, w.stages[pid := Done(if ok then Published(true) else PushFailed)],
            if after.remote != w.refs.remote then w.writes + [RemoteWrite(w.refs.remote, q.commit)] else w.writes)
    case Done(_) => w
  }

  ghost function Next(g: Graph, q: Request, w: World, m: Move): World
    requires Acyclic(g)
  {
    match m
    case Advance(pid, push) => AdvanceOne(g, q, w, pid, push)
    case Restart(pid) => if StageOf(w, pid).Done? then w.(stages := w.stages[pid := Idle]) else w
    case Crash(pid) => w.(stages := w.stages[pid := Idle])
    case Outside(refs) => w.(refs := refs)
  }

  ghost function Play(g: Graph, q: Request, w: World, moves: seq<Move>): World
    requires Acyclic(g)
  {
    if moves == [] then w else Next(g, q, Play(g, q, w, moves[..|moves| - 1]), moves[|moves| - 1])
  }

  // ------------------------------------------------------------------- safety

  /** A write publication may make: the approved commit, over the base locally and by fast-forward remotely. */
  ghost predicate AllowedWrite(g: Graph, q: Request, write: Write)
    requires Acyclic(g)
  {
    && Approved(g, q)
    && write.after == q.commit
    && (write.LocalWrite? ==> write.before == Some(q.base))
    && (write.RemoteWrite? && write.before.Some? ==>
         write.before.value != q.commit && IsAncestor(g, write.before.value, q.commit))
  }

  ghost predicate Safe(g: Graph, q: Request, w: World)
    requires Acyclic(g)
  {
    && (forall i :: 0 <= i < |w.writes| ==> AllowedWrite(g, q, w.writes[i]))
    && (forall pid :: pid in w.stages && (w.stages[pid].ToSwap? || w.stages[pid].Swapped? || w.stages[pid].ToPush?) ==>
         Approved(g, q))
  }

  /**
   However attempts, crashes, failed pushes, retries and other writers interleave,
   publishers write nothing but the approved commit: locally only over the base,
   remotely only as a fast-forward.
   */
  lemma {:induction false} PublicationIsSafe(g: Graph, q: Request, w: World, moves: seq<Move>)
    requires Acyclic(g) && w.stages == map[] && w.writes == []
    ensures Safe(g, q, Play(g, q, w, moves))
    decreases |moves|
  {
    if moves != [] {
      PublicationIsSafe(g, q, w, moves[..|moves| - 1]);
    }
  }

  // ------------------------------------------------- without outside movement

  /** The ref tables publication alone can reach from a base that agrees everywhere. */
  predicate Settled(q: Request, refs: Refs) {
    && refs.runBranch == Some(q.commit)
    && refs.tracking in {Some(q.base), Some(q.commit)}
    && refs.remote in {Some(q.base), Some(q.commit)}
    && (refs.local == Some(q.commit) || (refs.local == Some(q.base) && refs.tracking == refs.remote == Some(q.base)))
    && (refs.tracking == Some(q.commit) ==> refs.remote == Some(q.commit))
  }

  function BaseEverywhere(q: Request): Refs {
    Refs(Some(q.base), Some(q.base), Some(q.base), Some(q.commit))
  }

  /** One local and one remote move at most, each from the base to the commit, in that order. */
  ghost predicate MovesOnce(q: Request, w: World) {
    w.writes == (if w.refs.local == Some(q.commit) then [LocalWrite(Some(q.base), q.commit)] else [])
                + (if w.refs.remote == Some(q.commit) then [RemoteWrite(Some(q.base), q.commit)] else [])
  }

  /** What one stage has seen of a local base that already moved. */
  predicate Informed(q: Request, stage: Stage, local: Option<Sha>) {
    stage.Swapped? || stage.ToPush? || ((stage.LocalRead? || stage.BothRead?) && stage.local == Some(q.commit)) ==>
        local == Some(q.commit)
  }

  ghost predicate Alone(q: Request, w: World) {
    && Settled(q, w.refs)
    && MovesOnce(q, w)
    && forall pid :: pid in w.stages ==> Informed(q, w.stages[pid], w.refs.local)
  }

  lemma PushAlone(g: Graph, q: Request, refs: Refs, push: PushOutcome)
    requires Acyclic(g) && Approved(g, q) && Settled(q, refs) && refs.local == Some(q.commit)
    ensures var (after, ok) := Push(g, q, refs, push);
            Settled(q, after) && after.local == refs.local
                && (refs.remote == Some(q.commit) ==> after.remote == refs.remote)
  {
    ApprovedCommitsDescend(g, q);
  }

  /** A step that writes no ref and learns nothing false keeps the picture. */
  lemma StageChangeAlone(q: Request, w: World, pid: nat, stage: Stage)
    requires Alone(q, w) && Informed(q, stage, w.refs.local)
    ensures Alone(q, w.(stages := w.stages[pid := stage]))
  {
  }

  /** A step that moves refs and stage together. */
  lemma WriteAlone(q: Request, w: World, pid: nat, next: World)
    requires Alone(q, w) && Settled(q, next.refs) && MovesOnce(q, next) && next.refs.local == Some(q.commit)
    requires pid in next.stages && next.stages == w.stages[pid := next.stages[pid]]
    ensures Alone(q, next)
  {
  }

  lemma AloneStep(g: Graph, q: Request, w: World, pid: nat, push: PushOutcome)
    requires Acyclic(g) && Approved(g, q) && Alone(q, w) && q.base != q.commit
    ensures Alone(q, AdvanceOne(g, q, w, pid, push))
  {
    var next := AdvanceOne(g, q, w, pid, push);
    match StageOf(w, pid) {
      case ToPush =>
        PushAlone(g, q, w.refs, push);
        WriteAlone(q, w, pid, next);
      case ToSwap =>
        if w.refs.local == Some(q.base) {
          WriteAlone(q, w, pid, next);
        } else {
          StageChangeAlone(q, w, pid, Done(BaseMoved));
        }
      case Done(_) =>
      case _ =>
        StageChangeAlone(q, w, pid, next.stages[pid]);
    }
  }

  /** With no other writer, publishers together move each ref once, from the base to the commit. */
  lemma {:induction false} AloneItMovesOnce(g: Graph, q: Request, moves: seq<Move>)
    requires Acyclic(g) && Approved(g, q)
    requires forall i :: 0 <= i < |moves| ==> !moves[i].Outside?
    ensures Alone(q, Play(g, q, World(BaseEverywhere(q), map[], []), moves))
    decreases |moves|
  {
    ApprovedCommitsDescend(g, q);
    if moves != [] {
      var before := Play(g, q, World(BaseEverywhere(q), map[], []), moves[..|moves| - 1]);
      AloneItMovesOnce(g, q, moves[..|moves| - 1]);
      var m := moves[|moves| - 1];
      match m {
        case Advance(pid, push) => AloneStep(g, q, before, pid, push);
        case Crash(pid) => StageChangeAlone(q, before, pid, Idle);
        case Restart(pid) => StageChangeAlone(q, before, pid, Idle);
        case Outside(_) => assert false;
      }
    }
  }

  /** Wherever an undisturbed publication stopped, one delivered retry finishes it, and a further one changes no ref. */
  lemma RetryFinishes(g: Graph, q: Request, refs: Refs, again: PushOutcome)
    requires Acyclic(g) && Approved(g, q) && Settled(q, refs)
    ensures var (after, outcome) := PublishOnce(g, q, refs, Delivered);
            && outcome.Published?
            && after == Refs(Some(q.commit), Some(q.commit), Some(q.commit), Some(q.commit))
            && PublishOnce(g, q, after, again) == (after, Published(false))
  {
    ApprovedCommitsDescend(g, q);
  }

  /** From a base that agrees everywhere, a delivered attempt publishes exactly what a contract is met for. */
  lemma DeliveredExactlyWhen(g: Graph, q: Request)
    requires Acyclic(g)
    ensures PublishOnce(g, q, BaseEverywhere(q), Delivered) ==
            if exists chain :: Meets(g, q, chain) then
              (Refs(Some(q.commit), Some(q.commit), Some(q.commit), Some(q.commit)), Published(true))
            else (BaseEverywhere(q), Refused)
  {
    OutcomesExactlyWhen(g, q, BaseEverywhere(q), Delivered);
    AttemptMovesExactly(g, q, BaseEverywhere(q), Delivered);
    ApprovedExactlyWhen(g, q);
    if Approved(g, q) {
      ApprovedCommitsDescend(g, q);
    }
  }

  ghost function ThreeSteps(g: Graph, q: Request, w: World, pid: nat, push: PushOutcome): World
    requires Acyclic(g)
  {
    AdvanceOne(g, q, AdvanceOne(g, q, AdvanceOne(g, q, w, pid, push), pid, push), pid, push)
  }

  /** Three steps read both refs and decide. */
  lemma ThreeStepsDecide(g: Graph, q: Request, w: World, pid: nat, push: PushOutcome)
    requires Acyclic(g) && StageOf(w, pid).Idle?
    ensures var decided := ThreeSteps(g, q, w, pid, push);
            decided.refs == w.refs
                && StageOf(decided, pid) == Decide(g, q, w.refs.local, w.refs.tracking, w.refs.runBranch)
  {
    var one := AdvanceOne(g, q, w, pid, push);
    assert StageOf(one, pid) == LocalRead(w.refs.local);
    var two := AdvanceOne(g, q, one, pid, push);
    assert StageOf(two, pid) == BothRead(w.refs.local, w.refs.tracking);
  }

  /** The remaining steps of each decision. */
  lemma ThreeStepsFinish(g: Graph, q: Request, w: World, pid: nat, push: PushOutcome)
    requires Acyclic(g) && (StageOf(w, pid).Done? || q.base != q.commit)
    requires var stage := StageOf(w, pid);
             || stage.Done?
             || (stage.ToPush? && w.refs.local == Some(q.commit))
             || (stage.ToSwap? && w.refs.local == Some(q.base))
    ensures var done := ThreeSteps(g, q, w, pid, push);
            if StageOf(w, pid).Done? then done == w
            else
              var (after, ok) := Push(g, q, w.refs.(local := Some(q.commit)), push);
              done.refs == after && StageOf(done, pid) == Done(if ok then Published(true) else PushFailed)
  {
    var one := AdvanceOne(g, q, w, pid, push);
    var two := AdvanceOne(g, q, one, pid, push);
    if StageOf(w, pid).ToSwap? {
      assert StageOf(one, pid).Swapped? && one.refs == w.refs.(local := Some(q.commit));
      assert StageOf(two, pid).ToPush? && two.refs == one.refs;
    } else if StageOf(w, pid).ToPush? {
      assert w.refs.(local := Some(q.commit)) == w.refs;
      assert StageOf(one, pid).Done?;
    }
  }

  /** The decision is the one the attempt makes. */
  lemma DecidedAsAttempted(g: Graph, q: Request, refs: Refs, push: PushOutcome)
    requires Acyclic(g)
    ensures var stage := Decide(g, q, refs.local, refs.tracking, refs.runBranch);
            var (after, outcome) := PublishOnce(g, q, refs, push);
            && (stage.Done? ==> stage == Done(outcome) && after == refs)
            && (!stage.Done? ==>
                 && q.base != q.commit
                 && ((stage.ToPush? && refs.local == Some(q.commit)) || (stage.ToSwap? && refs.local == Some(q.base)))
                 && var (pushed, ok) := Push(g, q, refs.(local := Some(q.commit)), push);
                    after == pushed && outcome == if ok then Published(true) else PushFailed)
  {
    if Approved(g, q) {
      ApprovedCommitsDescend(g, q);
    }
  }

  /** The six steps of one publisher, run without interruption, are exactly the attempt. */
  lemma StepsAreTheAttempt(g: Graph, q: Request, w: World, pid: nat, push: PushOutcome)
    requires Acyclic(g) && StageOf(w, pid).Idle?
    ensures var done := ThreeSteps(g, q, ThreeSteps(g, q, w, pid, push), pid, push);
            var (after, outcome) := PublishOnce(g, q, w.refs, push);
            done.refs == after && StageOf(done, pid) == Done(outcome)
  {
    var decided := ThreeSteps(g, q, w, pid, push);
    ThreeStepsDecide(g, q, w, pid, push);
    DecidedAsAttempted(g, q, w.refs, push);
    ThreeStepsFinish(g, q, decided, pid, push);
  }

  // ------------------------------------------------------------- the remote base

  /** A remote base from which no push can fast-forward to the commit, unless it is the base itself. */
  predicate Fine(g: Graph, q: Request, remote: Option<Sha>)
    requires Acyclic(g)
  {
    || remote == Some(q.base)
    || remote == Some(q.commit)
    || (remote.Some? && !IsAncestor(g, remote.value, q.commit))
  }

  /** Every remote move so far started from the base. */
  ghost predicate RemoteMovesFromBase(q: Request, writes: seq<Write>) {
    forall i :: 0 <= i < |writes| && writes[i].RemoteWrite? ==> writes[i].before == Some(q.base)
  }

  /** One move by anyone: a fine remote stays fine, and a push over it starts from the base. */
  lemma FineStep(g: Graph, q: Request, w: World, m: Move)
    requires Acyclic(g) && Fine(g, q, w.refs.remote) && RemoteMovesFromBase(q, w.writes)
    requires m.Outside? ==> Fine(g, q, m.refs.remote)
    ensures var next := Next(g, q, w, m); Fine(g, q, next.refs.remote) && RemoteMovesFromBase(q, next.writes)
  {
  }

  /**
   Beside any attempts, crashes, retries and other writers, publication moves the
   remote only from the base, as long as nobody leaves it on a third ancestor of the
   commit, or deletes it.
   */
  lemma {:induction false} RemoteMovesOnlyFromBase(g: Graph, q: Request, w: World, moves: seq<Move>)
    requires Acyclic(g) && w.writes == [] && Fine(g, q, w.refs.remote)
    requires forall i :: 0 <= i < |moves| && moves[i].Outside? ==> Fine(g, q, moves[i].refs.remote)
    ensures var end := Play(g, q, w, moves); Fine(g, q, end.refs.remote) && RemoteMovesFromBase(q, end.writes)
    decreases |moves|
  {
    if moves != [] {
      var last := |moves| - 1;
      RemoteMovesOnlyFromBase(g, q, w, moves[..last]);
      FineStep(g, q, Play(g, q, w, moves[..last]), moves[last]);
    }
  }

  /** Without other writers, a remote that is not where it was has been moved from there. */
  ghost predicate MovedFrom(q: Request, start: Option<Sha>, w: World) {
    w.refs.remote != start ==> exists i :: 0 <= i < |w.writes| && w.writes[i] == RemoteWrite(start, q.commit)
  }

  lemma MovedFromStep(g: Graph, q: Request, start: Option<Sha>, w: World, pid: nat, push: PushOutcome)
    requires Acyclic(g) && MovedFrom(q, start, w)
    ensures MovedFrom(q, start, AdvanceOne(g, q, w, pid, push))
  {
    var next := AdvanceOne(g, q, w, pid, push);
    if w.refs.remote == start && next.refs.remote != start {
      assert next.writes[|w.writes|] == RemoteWrite(start, q.commit);
    } else if next.refs.remote != start {
      var i :| 0 <= i < |w.writes| && w.writes[i] == RemoteWrite(start, q.commit);
      assert next.writes[i] == w.writes[i];
    }
  }

  /** One more step at the end of a play. */
  lemma OneMove(g: Graph, q: Request, start: World, before: seq<Move>, pid: nat, push: PushOutcome)
    requires Acyclic(g) && MovedFrom(q, start.refs.remote, Play(g, q, start, before))
    ensures var end := Play(g, q, start, before + [Advance(pid, push)]);
            && end == AdvanceOne(g, q, Play(g, q, start, before), pid, push)
            && MovedFrom(q, start.refs.remote, end)
  {
    var moves := before + [Advance(pid, push)];
    assert moves[..|moves| - 1] == before;
    MovedFromStep(g, q, start.refs.remote, Play(g, q, start, before), pid, push);
  }

  lemma ThreeMoves(g: Graph, q: Request, start: World, before: seq<Move>, pid: nat, push: PushOutcome)
    requires Acyclic(g) && MovedFrom(q, start.refs.remote, Play(g, q, start, before))
    ensures var m := Advance(pid, push);
            var end := Play(g, q, start, before + [m] + [m] + [m]);
            && end == ThreeSteps(g, q, Play(g, q, start, before), pid, push)
            && MovedFrom(q, start.refs.remote, end)
  {
    var m := Advance(pid, push);
    OneMove(g, q, start, before, pid, push);
    OneMove(g, q, start, before + [m], pid, push);
    OneMove(g, q, start, before + [m] + [m], pid, push);
  }

  /** One whole attempt without interruption, as moves of a play. */
  function Attempt(push: PushOutcome): seq<Move> {
    var m := Advance(0, push);
    [m] + [m] + [m] + [m] + [m] + [m]
  }

  lemma AttemptIsPlayed(g: Graph, q: Request, refs: Refs, push: PushOutcome)
    requires Acyclic(g)
    ensures var w := World(refs, map[], []);
            var end := Play(g, q, w, Attempt(push));
            end.refs == PublishOnce(g, q, refs, push).0 && MovedFrom(q, refs.remote, end)
  {
    var w, m := World(refs, map[], []), Advance(0, push);
    assert [] + [m] == [m];
    ThreeMoves(g, q, w, [], 0, push);
    ThreeMoves(g, q, w, [m] + [m] + [m], 0, push);
    StepsAreTheAttempt(g, q, w, 0, push);
  }

  /** From any other remote one delivered attempt moves it, and not from the base. */
  lemma OthersAreMovedToo(g: Graph, q: Request, refs: Refs)
    requires Acyclic(g) && Approved(g, q) && !Fine(g, q, refs.remote)
    requires refs.runBranch == Some(q.commit) && refs.tracking == Some(q.base)
    requires refs.local == Some(q.base) || refs.local == Some(q.commit)
    ensures !RemoteMovesFromBase(q, Play(g, q, World(refs, map[], []), Attempt(Delivered)).writes)
  {
    var end := Play(g, q, World(refs, map[], []), Attempt(Delivered));
    ApprovedCommitsDescend(g, q);
    AttemptIsPlayed(g, q, refs, Delivered);
    assert end.refs.remote == Some(q.commit);
    var i :| 0 <= i < |end.writes| && end.writes[i] == RemoteWrite(refs.remote, q.commit);
  }

  /**
   The exact condition.  The remote base is only known through its tracking ref, so
   from a run that agrees with it everywhere else, all plays of publishers move the
   remote from the base only if and only if it starts on the base, on the commit, or
   where no fast-forward reaches the commit.
   */
  lemma RemoteMovesFromBaseExactlyWhen(g: Graph, q: Request, refs: Refs)
    requires Acyclic(g) && Approved(g, q)
    requires refs.runBranch == Some(q.commit) && refs.tracking == Some(q.base)
    requires refs.local == Some(q.base) || refs.local == Some(q.commit)
    ensures (forall moves: seq<Move> | forall i :: 0 <= i < |moves| ==> !moves[i].Outside? ::
               RemoteMovesFromBase(q, Play(g, q, World(refs, map[], []), moves).writes))
       <==> Fine(g, q, refs.remote)
  {
    var w := World(refs, map[], []);
    if Fine(g, q, refs.remote) {
      forall moves: seq<Move> | forall i :: 0 <= i < |moves| ==> !moves[i].Outside?
        ensures RemoteMovesFromBase(q, Play(g, q, w, moves).writes)
      {
        RemoteMovesOnlyFromBase(g, q, w, moves);
      }
    } else {
      OthersAreMovedToo(g, q, refs);
      assert forall k :: 0 <= k < |Attempt(Delivered)| ==> !Attempt(Delivered)[k].Outside?;
    }
  }

  /** For instance, a remote someone already moved to the middle of the chain is moved on from there. */
  lemma StaleTrackingMovesFromElsewhere(g: Graph, q: Request, middle: Sha)
    requires Acyclic(g) && Approved(g, q) && IsAncestor(g, middle, q.commit) && middle != q.base
    ensures var refs := BaseEverywhere(q).(remote := Some(middle));
            var (after, outcome) := PublishOnce(g, q, refs, Delivered);
            outcome == Published(true) && after.remote == Some(q.commit) && refs.remote != Some(q.base)
  {
    ApprovedCommitsDescend(g, q);
  }
}
