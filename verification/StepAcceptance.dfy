/**
 A whole run of accepted steps: each step passes the commit gate, is committed on
 the run's tip and recorded, while attempts in between may leave anything behind.

 The ghost fields tell the history the way `CommitGraph` does, so that what is
 proved of grown histories holds of the repository the run leaves.
 */
module StepAcceptance {
  import opened Common
  import opened CommitGraph
  import opened Repository
  import Publication

  datatype Refusal = UnchangedTree | GateClosed

  class AcceptedRun {
    const repo: Repository
    const base: Sha
    var tip: Sha
    var records: seq<Record>
    // The history so far, on the objects that existed at the last step.
    ghost var start: History
    ghost var growth: seq<Growth>
    ghost var graph: Graph

    ghost predicate Valid()
      reads this, repo
    {
      && Acyclic(start.graph) && start.tip == base && base in start.graph && start.records == []
      && Grown(start, growth, History(graph, tip, records))
      && Extends(graph, repo.commits) && Acyclic(repo.commits)
    }

    constructor (repo: Repository, base: Sha)
      requires Acyclic(repo.commits) && base in repo.commits
      ensures Valid() && this.repo == repo && this.base == base
      ensures tip == base && records == [] && growth == []
    {
      this.repo, this.base, this.tip, this.records := repo, base, base, [];
      this.start, this.growth, this.graph := History(repo.commits, base, []), [], repo.commits;
    }

    /** The repository still holds the run: its tip is a known commit with the tree the history gave it. */
    lemma TipIsKept()
      requires Valid()
      ensures tip in graph && tip in repo.commits && repo.commits[tip] == graph[tip]
      ensures Chain(repo.commits, base, tip, Shas(growth)) && RecordsMatch(repo.commits, base, Shas(growth), records)
    {
      GrownHistoriesMatch(start, growth, History(graph, tip, records));
      OthersChangeNothing(History(graph, tip, records), repo.commits, base, Shas(growth));
    }

    /** Anything an attempt, a check or another process may do: commits are only ever added. */
    method Meanwhile(index: Tree, files: Tree, refs: map<Ref, Sha>, head: Head, worktrees: map<string, Option<Ref>>,
                     added: Graph)
      requires Valid() && Acyclic(added + repo.commits)
      modifies repo
      ensures Valid() && repo.commits == added + old(repo.commits)
      ensures repo.index == index && repo.files == files && repo.refs == refs && repo.head == head
        && repo.worktrees == worktrees
    {
      repo.index, repo.files := index, files;
      repo.refs, repo.head, repo.worktrees := refs, head, worktrees;
      repo.commits := added + repo.commits;
    }

    /** What the gate demands of the present repository. */
    ghost predicate GateOpen(tree: Tree, scope: set<Path>, verified: bool, securityPassed: bool,
                             scan: (Tree, Tree) -> seq<string>)
      reads this, repo
    {
      && verified && securityPassed
      && repo.CurrentHead() == Some(tip) && repo.index == tree && repo.Candidate() == tree
      && WithinScope(repo.commits[tip].tree, tree, scope)
      && scan(repo.commits[tip].tree, tree) == []
    }

    /** Commit a step whose gate is open on the run's tip, and record it. */
    method Commit(tree: Tree, scope: set<Path>, id: Sha)
      requires Valid() && repo.CurrentHead() == Some(tip)
      requires tree != repo.commits[tip].tree && WithinScope(repo.commits[tip].tree, tree, scope)
      requires id in repo.commits ==> repo.commits[id].parents == [tip] && repo.commits[id].tree == tree
      modifies this, repo`commits, repo`refs, repo`head
      ensures Valid() && start == old(start)
      ensures tip == id && repo.CurrentHead() == Some(id) && repo.commits[id].tree == tree
      ensures records == old(records)
        + [Record(Id(id), Id(old(tip)), Id(tree), Missing, Id(old(repo.commits)[old(tip)].tree))]
      ensures growth == Longer(old(growth), old(repo.commits), AcceptedStep(id, tree, scope))
    {
      ghost var step := AcceptedStep(id, tree, scope);
      OneStepLonger(start, growth, graph, History(repo.commits, tip, records), step);
      growth := Longer(growth, repo.commits, step);
      records := records + [Record(Id(id), Id(tip), Id(tree), Missing, Id(repo.commits[tip].tree))];
      var committed := repo.CommitTree(tree, tip, id);
      assert committed.Success?;
      graph, tip := repo.commits, id;
    }

    /**
     Accept one step: gate, commit, record.  It succeeds exactly when the tree is new
     and the gate open, and then the run is longer by that one step; otherwise neither
     the run nor any ref moved.
     */
    method Accept(tree: Tree, scope: set<Path>, verified: bool, securityPassed: bool,
                  scan: (Tree, Tree) -> seq<string>, id: Sha)
      returns (r: Result<Sha, Refusal>)
      requires Valid() && repo.StatusLaws()
      requires id in repo.commits ==> repo.commits[id].parents == [tip] && repo.commits[id].tree == tree
      modifies this, repo`commits, repo`refs, repo`head
      ensures Valid() && start == old(start)
      ensures tip in repo.commits && old(tip) in old(repo.commits)
      ensures r.Success? <==>
        tree != old(repo.commits)[old(tip)].tree && old(GateOpen(tree, scope, verified, securityPassed, scan))
      ensures r.Success? ==>
        && r.value == id && tip == id && repo.CurrentHead() == Some(id) && repo.commits[id].tree == tree
        && records == old(records)
             + [Record(Id(id), Id(old(tip)), Id(tree), Missing, Id(old(repo.commits)[old(tip)].tree))]
        && growth == Longer(old(growth), old(repo.commits), AcceptedStep(id, tree, scope))
      ensures r.Failure? ==>
        && tip == old(tip) && records == old(records) && growth == old(growth)
        && repo.refs == old(repo.refs) && repo.head == old(repo.head)
    {
      TipIsKept();
      if tree == repo.commits[tip].tree {
        return Failure(UnchangedTree);
      }
      var changed := repo.CommitSafetyGate(tree, tip, scope, verified, securityPassed, scan);
      if changed.None? {
        return Failure(GateClosed);
      }
      Commit(tree, scope, id);
      return Success(id);
    }

    /**
     Before publication the chain is validated again, without records.  For a run of
     accepted steps that never fails: the commits are exactly its steps, and the
     cumulative change is inside the union of its scopes.  With any step at all the tip
     is publishable against the run's own records.
     */
    method ValidateRun() returns (r: Result<seq<Sha>, ChainError>)
      requires Valid()
      ensures r == Success(Shas(growth))
      ensures base in repo.commits && tip in repo.commits && Chain(repo.commits, base, tip, Shas(growth))
      ensures (forall i :: 0 <= i < |Scopes(growth)| ==> Scopes(growth)[i] != {}) ==>
        DiffPaths(repo.commits[base].tree, repo.commits[tip].tree) <= UnionOf(Scopes(growth), |Scopes(growth)|)
      ensures Shas(growth) != [] ==>
        Publication.Approved(repo.commits, Publication.Request(base, tip, repo.commits[tip].tree, None, Some(records)))
    {
      TipIsKept();
      GrownHistoriesMatch(start, growth, History(graph, tip, records));
      var tree := repo.commits[tip].tree;
      assert Accepts(repo.commits, base, tip, records, Some(tree), Shas(growth));
      if forall i :: 0 <= i < |Scopes(growth)| ==> Scopes(growth)[i] != {} {
        GrownHistoriesStayInScope(start, growth, History(graph, tip, records));
      }
      assert Accepts(repo.commits, base, tip, [], Some(tree), Shas(growth));
      r := ValidateLinearCommitChain(repo.commits, base, tip, [], Some(tree));
    }

    /** What the orchestration asks to publish: the tip on top of its own parent, without the records. */
    function OrchestratedRequest(): Publication.Request
      requires tip in repo.commits
      reads this, repo
    {
      var parents := repo.commits[tip].parents;
      Publication.Request(base, tip, repo.commits[tip].tree, Some(if parents != [] then parents[0] else base), None)
    }

    /**
     The exact condition.  Although the whole chain of any run validates, a run is published as the
     orchestration does it exactly when it has one or two accepted steps.
     */
    lemma RunIsPublishedExactlyWhen()
      requires Valid()
      ensures tip in repo.commits
      ensures var q := OrchestratedRequest();
              Publication.PublishOnce(repo.commits, q, Publication.BaseEverywhere(q), Publication.Delivered).1
              == if 1 <= |records| <= 2 then Publication.Published(true) else Publication.Refused
    {
      TipIsKept();
      var q, chain := OrchestratedRequest(), Shas(growth);
      WalkDecidesChains(repo.commits, base, tip);
      if chain != [] {
        var last := |chain| - 1;
        assert repo.commits[chain[last]].parents == [Before(base, chain, last)];
        assert |chain| <= 2 ==> Publication.Meets(repo.commits, q, chain);
      }
      Publication.DeliveredExactlyWhen(repo.commits, q);
    }
  }

  /** Others' commits, then one step of its own. */
  ghost function Longer(growth: seq<Growth>, commits: Graph, s: AcceptedStep): seq<Growth> {
    growth + [Growth.Meanwhile(commits)] + [Growth.Accept(s)]
  }

  /** That makes a history grow. */
  lemma OneStepLonger(start: History, growth: seq<Growth>, graph: Graph, present: History, s: AcceptedStep)
    requires Grown(start, growth, present.(graph := graph)) && Extends(graph, present.graph) && Acyclic(present.graph)
    requires Acyclic(start.graph) && CanCommit(present, s)
    ensures var next := AcceptStep(present, s);
            Grown(start, Longer(growth, present.graph, s), next) && Acyclic(next.graph)
  {
    var first := growth + [Growth.Meanwhile(present.graph)];
    var whole := first + [Growth.Accept(s)];
    assert first[..|growth|] == growth && whole[..|first|] == first;
    assert GrowsBy(present.(graph := graph), first[|growth|], present);
    assert Grown(start, first, present);
    assert GrowsBy(present, whole[|first|], AcceptStep(present, s));
  }
}
