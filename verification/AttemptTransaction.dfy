/**
 The transaction around one untrusted worker attempt.

 `Begin` records a fully staged boundary.  Between it and `Discard` or `Abort`
 the worker may have left any index and any files behind, so the contracts below
 speak of an arbitrary starting state of the repository.
 */
module AttemptTransaction {
  import opened Common
  import opened CommitGraph
  import opened Repository

  datatype Violation = RequiresOperator | GitViolation | ScopeViolation | SecurityFailure

  datatype Boundary = Boundary(tree: Tree, status: seq<string>, ownership: Ownership)

  datatype Rollback = Rollback(changed: set<Path>, treeAfter: Tree)

  /** Whether the harness reports no ownership problem. */
  predicate OwnershipIntact(before: Ownership, after: Ownership, branchRef: Ref, baseSha: Sha) {
    && after.headRef == Some(branchRef)
    && after.head == baseSha
    && after.branches == before.branches
    && after.worktrees == before.worktrees
  }

  predicate HasUnstagedOrUntracked(status: seq<string>) {
    exists i :: 0 <= i < |status| &&
      ((|status[i]| >= 3 && status[i][..3] == "?? ") || (|status[i]| >= 2 && status[i][1] != ' '))
  }

  lemma CleanStatusHasNothingUnstaged(status: seq<string>)
    requires forall i :: 0 <= i < |status| ==> !UnstagedLine(status[i])
    ensures !HasUnstagedOrUntracked(status)
  {
    forall i | 0 <= i < |status| && |status[i]| >= 3 ensures status[i][..3] != "?? " {
      assert status[i][..3][..2] == status[i][..2];
    }
  }

  /** Staging the files of an attempt does not change the tree they would record. */
  lemma StagingIsStable(ignored: Path -> bool, index: Tree, files: Tree)
    ensures var staged := CandidateTree(ignored, index, files);
            CandidateTree(ignored, staged, files) == staged
                && Hidden(ignored, staged, files) == Hidden(ignored, index, files)
  {
  }

  /** Index and files put back on exactly the changed paths give the boundary tree, staged. */
  lemma RollbackRecreates(ignored: Path -> bool, tree: Tree, ended: Tree, files: Tree)
    requires CandidateTree(ignored, ended, files) == ended
    ensures var changed := DiffPaths(tree, ended);
            && Reinstated(tree, changed, ended) == tree
            && CandidateTree(ignored, tree, Reinstated(tree, changed, files)) == tree
            && Reinstated(tree, changed, files) == tree + (Hidden(ignored, ended, files) - changed)
  {
    var changed := DiffPaths(tree, ended);
    DiffRestoresCandidate(ignored, tree, tree, ended, files, changed);
    DiffKeepsHiddenFiles(ignored, tree, tree, ended, files, changed);
    ReinstatedIndex(tree, ended);
  }

  lemma ReinstatedIndex(tree: Tree, ended: Tree)
    ensures Reinstated(tree, DiffPaths(tree, ended), ended) == tree
  {
    forall p | p !in DiffPaths(tree, ended)
      ensures (p in tree <==> p in ended) && (p in tree ==> tree[p] == ended[p])
    {
      assert p !in DiffPaths(tree, ended);
    }
  }

  predicate AllSafe(guard: NameGuard, paths: set<Path>) {
    forall p :: p in paths ==> guard.safe(p)
  }

  /** Unlinking what the tree lacks, then writing what it has, reinstates it as well. */
  lemma UnlinkedThenWritten(tree: Tree, paths: set<Path>, files: Tree)
    ensures files - (set p | p in paths && p !in tree) + (map p | p in tree && p in paths :: tree[p])
         == Reinstated(tree, paths, files)
  {
  }

  /** Nothing changed means nothing to restore. */
  lemma NothingToRollBack(tree: Tree, ended: Tree, files: Tree)
    requires DiffPaths(tree, ended) == {}
    ensures ended == tree && Reinstated(tree, {}, files) == files
  {
    ReinstatedIndex(tree, ended);
    assert Reinstated(tree, {}, ended) == ended;
  }

  /** With everything staged, the files are the candidate and the hidden ones. */
  lemma StagedFiles(ignored: Path -> bool, index: Tree, files: Tree)
    requires CandidateTree(ignored, index, files) == index
    ensures index + Hidden(ignored, index, files) == files
  {
    forall p | p in files && p !in index ensures ignored(p) {
      assert p !in CandidateTree(ignored, index, files);
    }
    forall p | p in index ensures p in files && files[p] == index[p] {
      assert p in CandidateTree(ignored, index, files);
    }
  }

  /** An attempt that does nothing is begun, and discarded without a change. */
  method DoNothing(repo: Repository, branchRef: Ref) returns (r: Result<Rollback, Violation>)
    requires repo.StatusLaws()
    requires repo.CurrentHead().Some? && repo.SymbolicHead() == Some(branchRef) && repo.index == repo.Candidate()
    modifies repo`index, repo`files
    ensures r == Success(Rollback({}, old(repo.Candidate())))
    ensures repo.index == old(repo.index) && repo.files == old(repo.files)
  {
    var begun := CandidateAttemptTransaction.Begin(repo, branchRef, None);
    StagedFiles(repo.ignored, repo.index, repo.files);
    assert DiffPaths(repo.index, repo.index) == {};
    r := begun.value.Discard();
  }

  class CandidateAttemptTransaction {
    const repo: Repository
    const boundary: Boundary
    const branchRef: Ref
    const baseSha: Sha

    constructor (repo: Repository, boundary: Boundary, branchRef: Ref, baseSha: Option<Sha>)
      ensures this.repo == repo && this.boundary == boundary && this.branchRef == branchRef
      ensures this.baseSha == if baseSha.Some? then baseSha.value else boundary.ownership.head
    {
      this.repo, this.boundary, this.branchRef := repo, boundary, branchRef;
      this.baseSha := if baseSha.Some? then baseSha.value else boundary.ownership.head;
    }

    /** The boundary of an attempt that starts from the present, fully staged candidate. */
    static method Begin(repo: Repository, branchRef: Ref, baseSha: Option<Sha>)
      returns (r: Result<CandidateAttemptTransaction, Violation>)
      ensures r.Success? <==> repo.CurrentHead().Some? && repo.index == repo.Candidate()
      ensures r.Success? ==>
        && fresh(r.value) && r.value.repo == repo && r.value.branchRef == branchRef
        && r.value.boundary.tree == repo.index
        && Some(r.value.boundary.ownership) == repo.TakeOwnership()
        && r.value.baseSha == (if baseSha.Some? then baseSha.value else r.value.boundary.ownership.head)
        && r.value.Recorded()
    {
      var ownership := repo.TakeOwnership();
      if ownership.None? {
        return Failure(RequiresOperator);
      }
      var tree := repo.Candidate();
      if repo.index != tree {
        return Failure(RequiresOperator);
      }
      var status := repo.statusLines(repo.commits[ownership.value.head].tree, repo.index, tree);
      var t := new CandidateAttemptTransaction(repo, Boundary(tree, status, ownership.value), branchRef, baseSha);
      return Success(t);
    }

    /** The recorded status is the one Git gives the staged boundary tree on the recorded HEAD. */
    ghost predicate Recorded()
      reads repo
    {
      && boundary.ownership.head in repo.commits
      && boundary.status == repo.statusLines(repo.commits[boundary.ownership.head].tree, boundary.tree, boundary.tree)
    }

    /** Git would describe the staged boundary tree on the present HEAD as it was described at the start. */
    predicate StatusStillMatches()
      requires repo.CurrentHead().Some?
      reads repo
    {
      repo.statusLines(repo.commits[repo.CurrentHead().value].tree, boundary.tree, boundary.tree) == boundary.status
    }

    /** Whether the ownership audit passes now. */
    predicate OwnershipPasses()
      reads this, repo
    {
      && repo.TakeOwnership().Some?
      && OwnershipIntact(boundary.ownership, repo.TakeOwnership().value, branchRef, baseSha)
    }

    /** Stage the attempt if anything moved, and name what it changed. */
    method Freeze() returns (tree: Tree, changed: set<Path>)
      requires repo.CurrentHead().Some?
      modifies repo`index
      ensures tree == old(repo.Candidate()) && repo.index == tree && repo.Candidate() == tree
      ensures changed == DiffPaths(boundary.tree, tree)
      ensures Hidden(repo.ignored, repo.index, repo.files) == old(Hidden(repo.ignored, repo.index, repo.files))
    {
      tree := repo.Candidate();
      var status := repo.statusLines(repo.commits[repo.CurrentHead().value].tree, repo.index, tree);
      StagingIsStable(repo.ignored, repo.index, repo.files);
      if tree != boundary.tree || repo.index != boundary.tree || HasUnstagedOrUntracked(status) {
        repo.StageAll();
        tree := repo.Candidate();
      }
      changed := DiffPaths(boundary.tree, tree);
    }

    /** Put exactly `paths` back, in the index and in the files; every name is guarded before anything is touched. */
    method RestorePaths(paths: set<Path>) returns (ok: bool)
      modifies repo`index, repo`files
      ensures ok <==> AllSafe(repo.guard, paths)
      ensures ok ==> repo.index == Reinstated(boundary.tree, paths, old(repo.index))
      ensures ok ==> repo.files == Reinstated(boundary.tree, paths, old(repo.files))
      ensures !ok ==> repo.index == old(repo.index) && repo.files == old(repo.files)
    {
      if exists p :: p in paths && !repo.guard.safe(p) {
        return false;
      }
      UnlinkedThenWritten(boundary.tree, paths, repo.files);
      var unlinked := repo.Unlink(set p | p in paths && p !in boundary.tree);
      assert unlinked;
      repo.WriteFromTree(boundary.tree, paths);
      repo.ReadTree(Reinstated(boundary.tree, paths, repo.index));
      return true;
    }

    /**
     Put the changed paths back, then compare with the boundary.  The content check never
     fires: the rollback is refused only for a changed name the guard refuses, before
     anything is restored, when HEAD is no longer one on which the boundary tree has
     its recorded status, or when ownership changed.
     */
    method RollBack(changed: set<Path>) returns (r: Result<(), Violation>)
      requires repo.StatusLaws() && repo.CurrentHead().Some?
      requires repo.index == repo.Candidate() && changed == DiffPaths(boundary.tree, repo.index)
      modifies repo`index, repo`files
      ensures r == Failure(RequiresOperator) <==> !AllSafe(repo.guard, changed) || !StatusStillMatches()
      ensures r == Failure(GitViolation) <==> AllSafe(repo.guard, changed) && StatusStillMatches() && !OwnershipPasses()
      ensures r.Success? <==> AllSafe(repo.guard, changed) && StatusStillMatches() && OwnershipPasses()
      ensures AllSafe(repo.guard, changed) ==>
        && repo.index == boundary.tree && repo.Candidate() == boundary.tree
        && repo.files == boundary.tree + (Hidden(repo.ignored, old(repo.index), old(repo.files)) - changed)
      ensures !AllSafe(repo.guard, changed) ==> repo.index == old(repo.index) && repo.files == old(repo.files)
    {
      RollbackRecreates(repo.ignored, boundary.tree, repo.index, repo.files);
      if changed != {} {
        var restored := RestorePaths(changed);
        if !restored {
          return Failure(RequiresOperator);
        }
        repo.StageAll();
      } else {
        NothingToRollBack(boundary.tree, repo.index, repo.files);
      }
      var status := repo.statusLines(repo.commits[repo.CurrentHead().value].tree, repo.index, repo.Candidate());
      CleanStatusHasNothingUnstaged(status);
      if repo.Candidate() != boundary.tree || repo.index != boundary.tree || HasUnstagedOrUntracked(status) {
        assert false;  // the content half of the exactness check
      }
      if status != boundary.status {
        return Failure(RequiresOperator);
      }
      if !OwnershipPasses() {
        return Failure(GitViolation);
      }
      return Success(());
    }

    /**
     Roll back whatever the attempt did, in scope or not.  Whatever the attempt left
     behind, a discard that passes the ownership audit puts index and files back when
     every changed name is safe, and then succeeds exactly when the recorded status
     still applies; with an unsafe name the attempt stays staged.
     */
    method Discard() returns (r: Result<Rollback, Violation>)
      requires repo.StatusLaws()
      modifies repo`index, repo`files
      ensures r == Failure(GitViolation) <==> !old(OwnershipPasses())
      ensures var changed := DiffPaths(boundary.tree, old(repo.Candidate()));
              && (r.Success? <==> old(OwnershipPasses()) && AllSafe(repo.guard, changed) && StatusStillMatches())
              && (Recorded() && baseSha == boundary.ownership.head ==>
                  (r.Success? <==> old(OwnershipPasses()) && AllSafe(repo.guard, changed)))
              && (r.Success? ==> r.value == Rollback(changed, old(repo.Candidate())))
      ensures r == Failure(GitViolation) ==> repo.index == old(repo.index) && repo.files == old(repo.files)
      ensures r != Failure(GitViolation) ==>
        var changed := DiffPaths(boundary.tree, old(repo.Candidate()));
        && OwnershipPasses()
        && (if AllSafe(repo.guard, changed) then
              && repo.index == boundary.tree && repo.Candidate() == boundary.tree
              && repo.files == boundary.tree + (old(Hidden(repo.ignored, repo.index, repo.files)) - changed)
            else repo.files == old(repo.files) && repo.index == repo.Candidate() == old(repo.Candidate()))
    {
      if !OwnershipPasses() {
        return Failure(GitViolation);
      }
      var treeAfter, changed := Freeze();
      var rolledBack := RollBack(changed);
      if rolledBack.Failure? {
        return Failure(rolledBack.error);
      }
      return Success(Rollback(changed, treeAfter));
    }

    /**
     Roll back only what is in scope and free of findings.  Any other attempt, and
     one with an unsafe name, is refused before the rollback and stays staged,
     untouched.
     */
    method Abort(allowed: set<Path>, requested: set<Path>, scan: (Tree, Tree) -> seq<string>)
      returns (r: Result<Rollback, Violation>)
      requires repo.StatusLaws()
      modifies repo`index, repo`files
      ensures r == Failure(GitViolation) <==> !old(OwnershipPasses())
      ensures r != Failure(GitViolation) ==>
        var ended := old(repo.Candidate());
        var changed := DiffPaths(boundary.tree, ended);
        var inScope := changed <= allowed + requested;
        var clean := ended == boundary.tree || scan(repo.commits[baseSha].tree, ended) == [];
        && (r == Failure(ScopeViolation) <==> !inScope)
        && (r == Failure(SecurityFailure) <==> inScope && !clean)
        && (r == Failure(RequiresOperator) <==>
             inScope && clean && (!AllSafe(repo.guard, changed) || !StatusStillMatches()))
        && (r.Success? <==> inScope && clean && AllSafe(repo.guard, changed) && StatusStillMatches())
        && (r.Success? ==> r.value == Rollback(changed, ended))
        && (if inScope && clean && AllSafe(repo.guard, changed) then
              && repo.index == boundary.tree && repo.Candidate() == boundary.tree
              && repo.files == boundary.tree + (old(Hidden(repo.ignored, repo.index, repo.files)) - changed)
            else repo.files == old(repo.files) && repo.Candidate() == ended)
    {
      if !OwnershipPasses() {
        return Failure(GitViolation);
      }
      var treeAfter, changed := Freeze();
      if !(changed <= allowed + requested) {
        return Failure(ScopeViolation);
      }
      if treeAfter != boundary.tree && scan(repo.commits[baseSha].tree, treeAfter) != [] {
        return Failure(SecurityFailure);
      }
      var rolledBack := RollBack(changed);
      if rolledBack.Failure? {
        return Failure(rolledBack.error);
      }
      return Success(Rollback(changed, treeAfter));
    }
  }
}
