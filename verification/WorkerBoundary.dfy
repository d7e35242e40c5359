/**
 What an untrusted worker may do to refs, and how the harness takes it back.

 `Audit` classifies the Git mutations of one attempt, `RecoverWorkerGitState`
 undoes the recoverable ones.  The audit never looks at worktrees.
 */
module WorkerBoundary {
  import opened Common
  import opened CommitGraph
  import opened Repository
  import opened AttemptTransaction

  /** What the audit found: either a fatal change, or commits and branches that can be taken back. */
  datatype MutationAudit = MutationAudit(fatal: bool, workerCommits: bool, created: set<Ref>, adopted: Option<Ref>)

  const FATAL := MutationAudit(true, false, {}, None)

  function TrackingOf(refs: map<Ref, Sha>): map<Ref, Sha> {
    map r | r in refs && r.Tracking? :: refs[r]
  }

  /** Some ref other than the run branch, a created branch or a tracking ref was created, moved or deleted. */
  predicate ForeignChange(before: Ownership, after: Ownership, branchRef: Ref, created: set<Ref>) {
    exists r :: r in after.refs.Keys + before.refs.Keys && r != branchRef && r !in created && !r.Tracking? &&
      !(r in before.refs && r in after.refs && before.refs[r] == after.refs[r])
  }

  /** A branch the worker created and checked out. */
  function Adopted(before: Ownership, after: Ownership, branchRef: Ref, created: set<Ref>): Option<Ref> {
    if after.headRef.Some? && after.headRef.value != branchRef && after.headRef.value in created
        && after.headRef.value !in before.refs
    then after.headRef
    else None
  }

  function Audit(g: Graph, before: Ownership, after: Ownership, branchRef: Ref, baseSha: Sha): MutationAudit
    requires Acyclic(g)
  {
    var created := after.branches - before.branches;
    if !(before.branches <= after.branches) then FATAL
    else if TrackingOf(after.refs) != TrackingOf(before.refs) then FATAL
    else if ForeignChange(before, after, branchRef, created) then FATAL
    else
      var adopted := Adopted(before, after, branchRef, created);
      // A detached HEAD equals an absent adopted branch here, so it is not refused.
      if after.headRef != Some(branchRef) && after.headRef != adopted then FATAL
      else if after.head != baseSha then
        if adopted.None? && after.headRef != Some(branchRef) then FATAL
        else if !(before.head == baseSha && IsAncestor(g, baseSha, after.head)) then FATAL
        else MutationAudit(false, true, created, adopted)
      else MutationAudit(false, false, created, adopted)
  }

  /** An ownership read from one repository: its branches are refs, and HEAD reads the ref it is on. */
  ghost predicate Consistent(o: Ownership) {
    && o.branches == BranchesOf(o.refs)
    && (o.headRef.Some? ==> o.headRef.value in o.refs && o.refs[o.headRef.value] == o.head)
  }

  /** The pre-attempt table: the worktree is on the run branch, at the base commit. */
  ghost predicate PreAttempt(before: Ownership, branchRef: Ref, baseSha: Sha) {
    Consistent(before) && branchRef.Branch? && before.headRef == Some(branchRef) && before.head == baseSha
  }

  /**
   The whole of what the harness may take back: the table is the old one but for
   branches that are new and a run branch that was not deleted, HEAD is on the run
   branch, on a new branch or detached at the base, and it moved only forward.
   */
  predicate Absorbable(g: Graph, before: Ownership, after: Ownership, branchRef: Ref, baseSha: Sha)
    requires Acyclic(g)
  {
    var created := after.branches - before.branches;
    && branchRef in after.refs
    && (after.refs - created)[branchRef := baseSha] == before.refs
    && (match after.headRef
        case None => after.head == baseSha
        case Some(r) => r == branchRef || r in created)
    && (after.head == baseSha || IsAncestor(g, baseSha, after.head))
  }

  /** What a verdict that is not fatal proves about the ref table. */
  lemma NotFatalMeans(g: Graph, before: Ownership, after: Ownership, branchRef: Ref, baseSha: Sha)
    requires Acyclic(g) && PreAttempt(before, branchRef, baseSha) && Consistent(after)
    requires !Audit(g, before, after, branchRef, baseSha).fatal
    ensures var audit := Audit(g, before, after, branchRef, baseSha);
            && audit.created == after.branches - before.branches
            && audit.created !! before.refs.Keys && branchRef !in audit.created
            && Absorbable(g, before, after, branchRef, baseSha)
  {
    var created := after.branches - before.branches;
    assert branchRef in before.branches;
    forall r
      ensures r in (after.refs - created)[branchRef := baseSha] <==> r in before.refs
      ensures r in before.refs ==> (after.refs - created)[branchRef := baseSha][r] == before.refs[r]
    {
      KeptRef(g, before, after, branchRef, baseSha, r);
    }
  }

  lemma KeptRef(g: Graph, before: Ownership, after: Ownership, branchRef: Ref, baseSha: Sha, r: Ref)
    requires Acyclic(g) && PreAttempt(before, branchRef, baseSha) && Consistent(after)
    requires !Audit(g, before, after, branchRef, baseSha).fatal
    ensures var created := after.branches - before.branches;
            && (r in before.refs <==> r == branchRef || (r in after.refs && r !in created))
            && (r in before.refs && r != branchRef ==> r in after.refs && after.refs[r] == before.refs[r])
  {
    var created := after.branches - before.branches;
    if r.Tracking? {
      assert r in before.refs <==> r in TrackingOf(before.refs);
      assert r in after.refs <==> r in TrackingOf(after.refs);
      assert r in before.refs ==> TrackingOf(before.refs)[r] == before.refs[r];
    } else if r.Branch? {
      assert r in before.branches <==> r in before.refs;
    }
    if r !in created && r != branchRef && !r.Tracking? && r in after.refs.Keys + before.refs.Keys {
      assert r in before.refs && r in after.refs && before.refs[r] == after.refs[r];
    }
  }

  /** The audit reports nothing fatal exactly for such a table. */
  lemma AuditPassesExactlyWhen(g: Graph, before: Ownership, after: Ownership, branchRef: Ref, baseSha: Sha)
    requires Acyclic(g) && PreAttempt(before, branchRef, baseSha) && Consistent(after)
    ensures !Audit(g, before, after, branchRef, baseSha).fatal <==> Absorbable(g, before, after, branchRef, baseSha)
  {
    if !Audit(g, before, after, branchRef, baseSha).fatal {
      NotFatalMeans(g, before, after, branchRef, baseSha);
    } else if Absorbable(g, before, after, branchRef, baseSha) {
      AbsorbableTableIsKept(g, before, after, branchRef, baseSha);
    }
  }

  lemma AbsorbableTableIsKept(g: Graph, before: Ownership, after: Ownership, branchRef: Ref, baseSha: Sha)
    requires Acyclic(g) && PreAttempt(before, branchRef, baseSha) && Consistent(after)
    requires Absorbable(g, before, after, branchRef, baseSha)
    ensures before.branches <= after.branches && TrackingOf(after.refs) == TrackingOf(before.refs)
    ensures !ForeignChange(before, after, branchRef, after.branches - before.branches)
  {
    var created := after.branches - before.branches;
    forall r | r != branchRef && r !in created
      ensures r in before.refs <==> r in after.refs
      ensures r in before.refs ==> before.refs[r] == after.refs[r]
    {
      assert r in before.refs <==> r in (after.refs - created)[branchRef := baseSha];
    }
    forall r | r in before.branches ensures r in after.branches {
      assert r in (after.refs - created)[branchRef := baseSha];
    }
  }

  /** There is something to take back, and it may be. */
  predicate Recoverable(audit: MutationAudit) {
    !audit.fatal && (audit.workerCommits || audit.created != {} || audit.adopted.Some?)
  }

  /**
   What a verdict that is not fatal reports: the worker committed exactly when HEAD left the base, the
   adopted branch is the one HEAD is on, and nothing is to be taken back exactly when no branch is new,
   HEAD is at the base and not on a branch of the worker.  On the run branch the refs are then untouched.
   */
  lemma AuditReports(g: Graph, before: Ownership, after: Ownership, branchRef: Ref, baseSha: Sha)
    requires Acyclic(g) && PreAttempt(before, branchRef, baseSha) && Consistent(after)
    requires !Audit(g, before, after, branchRef, baseSha).fatal
    ensures var audit := Audit(g, before, after, branchRef, baseSha);
            && (audit.workerCommits <==> after.head != baseSha)
            && audit.created == after.branches - before.branches
            && audit.adopted == (if after.headRef == Some(branchRef) then None else after.headRef)
            && (!Recoverable(audit) <==>
                 after.head == baseSha && after.branches <= before.branches && after.headRef in {None, Some(branchRef)})
            && (!Recoverable(audit) && after.headRef == Some(branchRef) ==> after.refs == before.refs)
  {
    NotFatalMeans(g, before, after, branchRef, baseSha);
    var created := after.branches - before.branches;
    assert branchRef in before.branches;
    assert created == {} <==> after.branches <= before.branches;
    if created == {} {
      assert after.refs - created == after.refs;
    }
  }

  // ------------------------------------------------------------------ recovery

  /** Git checks a branch out in one worktree only. */
  predicate CheckedOutElsewhere(worktrees: map<string, Option<Ref>>, r: Ref) {
    exists w :: w in worktrees && worktrees[w] == Some(r)
  }

  /** `git reset --soft`: move what HEAD is on, keep the index and the files. */
  method ResetSoft(repo: Repository, commit: Sha) returns (ok: bool)
    modifies repo`refs, repo`head
    ensures ok <==> commit in repo.commits
    ensures ok && old(repo.head).OnBranch? ==>
      repo.head == old(repo.head) && repo.refs == old(repo.refs)[repo.head.ref := commit]
    ensures ok && old(repo.head).Detached? ==> repo.head == Detached(commit) && repo.refs == old(repo.refs)
    ensures !ok ==> repo.refs == old(repo.refs) && repo.head == old(repo.head)
  {
    if commit !in repo.commits {
      return false;
    }
    match repo.head {
      case OnBranch(r) => repo.refs := repo.refs[r := commit];
      case Detached(_) => repo.head := Detached(commit);
    }
    return true;
  }

  /**
   `git checkout`: free between two names of one commit; between two commits Git
   may refuse, or switch and leave any index and files, as `switching` says.
   */
  method CheckoutBranch(repo: Repository, r: Ref, switching: Option<(Tree, Tree)>) returns (ok: bool)
    modifies repo`head, repo`index, repo`files
    ensures ok ==> repo.head == OnBranch(r)
    ensures !ok ==> repo.head == old(repo.head)
    ensures old(repo.CurrentHead()).Some? && r in repo.refs && old(repo.CurrentHead()) == Some(repo.refs[r]) ==>
      && (ok <==> forall w :: w in repo.worktrees ==> repo.worktrees[w] != Some(r))
      && repo.index == old(repo.index) && repo.files == old(repo.files)
    ensures CheckedOutElsewhere(repo.worktrees, r) ==> !ok
  {
    if r !in repo.refs || repo.refs[r] !in repo.commits || CheckedOutElsewhere(repo.worktrees, r) {
      return false;
    }
    if repo.CurrentHead() != Some(repo.refs[r]) {
      if switching.None? {
        return false;
      }
      repo.index, repo.files := switching.value.0, switching.value.1;
    }
    repo.head := OnBranch(r);
    return true;
  }

  method DeleteRefs(repo: Repository, created: set<Ref>)
    modifies repo`refs
    ensures repo.refs == old(repo.refs) - created
  {
    var toDelete := created;
    assert repo.refs - {} == repo.refs;
    while toDelete != {}
      invariant toDelete <= created && repo.refs == old(repo.refs) - (created - toDelete)
      decreases |toDelete|
    {
      var branch :| branch in toDelete;
      repo.refs := repo.refs - {branch};
      assert old(repo.refs) - (created - toDelete) - {branch} == old(repo.refs) - (created - (toDelete - {branch}));
      toDelete := toDelete - {branch};
    }
    assert created - {} == created;
  }

  /** Whether the attempt can be taken back: HEAD stayed on the run branch, or the run branch itself did not move. */
  predicate CanRecover(after: Ownership, worktrees: map<string, Option<Ref>>, branchRef: Ref, baseSha: Sha) {
    || after.headRef == Some(branchRef)
    || (branchRef in after.refs && after.refs[branchRef] == baseSha && !CheckedOutElsewhere(worktrees, branchRef))
  }

  /**
   Take one recoverable mutation back.  It either refuses, or leaves the whole ref
   table and HEAD as they were before the attempt, with the worker's index and
   files untouched; and it refuses exactly when `CanRecover` says so.
   */
  method RecoverWorkerGitState(repo: Repository, audit: MutationAudit, branchRef: Ref, baseSha: Sha,
                               ghost before: Ownership, switching: Option<(Tree, Tree)>)
    returns (recovered: bool)
    requires Acyclic(repo.commits) && baseSha in repo.commits
    requires repo.TakeOwnership().Some? && PreAttempt(before, branchRef, baseSha)
    requires audit == Audit(repo.commits, before, repo.TakeOwnership().value, branchRef, baseSha) && !audit.fatal
    modifies repo`refs, repo`head, repo`index, repo`files
    ensures recovered <==> CanRecover(old(repo.TakeOwnership()).value, repo.worktrees, branchRef, baseSha)
    ensures recovered ==>
      && repo.refs == before.refs && repo.head == OnBranch(branchRef) && repo.CurrentHead() == Some(baseSha)
      && repo.index == old(repo.index) && repo.files == old(repo.files)
  {
    ghost var after := repo.TakeOwnership().value;
    NotFatalMeans(repo.commits, before, after, branchRef, baseSha);
    if repo.CurrentHead() != Some(baseSha) {
      var reset := ResetSoft(repo, baseSha);
      assert reset;
    }
    assert repo.CurrentHead() == Some(baseSha);
    assert (repo.refs - audit.created)[branchRef := baseSha] == before.refs;
    ghost var unmoved := repo.refs[branchRef] == baseSha;
    if repo.SymbolicHead() != Some(branchRef) {
      var attached := CheckoutBranch(repo, branchRef, switching);
      if !attached {
        return false;
      }
    }
    ghost var full := repo.refs;
    DeleteRefs(repo, audit.created);
    assert repo.CurrentHead() == Some(baseSha) <==> unmoved;
    recovered := repo.CurrentHead() == Some(baseSha) && repo.SymbolicHead() == Some(branchRef)
        && repo.Branches() * audit.created == {};
    if recovered {
      assert repo.refs == repo.refs[branchRef := baseSha] == (full - audit.created)[branchRef := baseSha]
          == before.refs;
    }
  }

  // ------------------------------------------------- the whole worker boundary

  /**
   An attempt the audit neither refuses nor recovers, and that passes the
   ownership check, left the ref table, HEAD and the worktree list as they were.
   */
  lemma QuietAttemptChangedNothing(g: Graph, before: Ownership, after: Ownership, branchRef: Ref, baseSha: Sha)
    requires Acyclic(g) && PreAttempt(before, branchRef, baseSha) && Consistent(after)
    requires !Audit(g, before, after, branchRef, baseSha).fatal
    requires OwnershipIntact(before, after, branchRef, baseSha)
    ensures after == before
  {
    NotFatalMeans(g, before, after, branchRef, baseSha);
    assert after.branches - before.branches == {};
    assert after.refs - {} == after.refs == after.refs[branchRef := baseSha];
  }

  /** The ownership check passes exactly when the ownership record, but for the ref values, is the old one. */
  lemma OwnershipIntactExactlyWhen(before: Ownership, after: Ownership, branchRef: Ref, baseSha: Sha)
    requires PreAttempt(before, branchRef, baseSha)
    ensures OwnershipIntact(before, after, branchRef, baseSha) <==> after.(refs := before.refs) == before
  {
  }

  /** The audit gives the same verdict whatever happened to the worktree list. */
  lemma AuditIgnoresWorktrees(g: Graph, before: Ownership, after: Ownership, other: set<string>, branchRef: Ref,
                              baseSha: Sha)
    requires Acyclic(g)
    ensures Audit(g, before, after.(worktrees := other), branchRef, baseSha)
      == Audit(g, before, after, branchRef, baseSha)
  {
    assert ForeignChange(before, after.(worktrees := other), branchRef, after.branches - before.branches)
        == ForeignChange(before, after, branchRef, after.branches - before.branches);
  }

  /** A HEAD detached at the base commit is not refused, although it left the run branch. */
  lemma DetachedAtBaseIsNotFatal(g: Graph, before: Ownership, branchRef: Ref, baseSha: Sha)
    requires Acyclic(g) && PreAttempt(before, branchRef, baseSha)
    ensures var after := before.(headRef := None);
            !Audit(g, before, after, branchRef, baseSha).fatal && !OwnershipIntact(before, after, branchRef, baseSha)
  {
    var after := before.(headRef := None);
    assert after.branches - before.branches == {};
    assert !ForeignChange(before, after, branchRef, {});
  }
}
