/**
 Commit objects, the accepted-commit chain and the scope of a whole chain.

 Object IDs are opaque strings; a tree object is its flat content, so two trees
 have the same ID exactly when they have the same files.  Every commit carries
 its Git generation number, which is what makes the graph acyclic.
 */
module CommitGraph {
  import opened Common

  type Sha = string
  type Path = string
  type Tree = map<Path, string>

  datatype Commit = Commit(parents: seq<Sha>, tree: Tree, generation: nat)

  type Graph = map<Sha, Commit>

  ghost predicate Acyclic(g: Graph) {
    forall c, i :: c in g && 0 <= i < |g[c].parents| ==>
      g[c].parents[i] in g && g[g[c].parents[i]].generation < g[c].generation
  }

  // `git merge-base --is-ancestor`: false as well when either ID is unknown.
  predicate IsAncestor(g: Graph, ancestor: Sha, descendant: Sha)
    requires Acyclic(g)
    decreases if descendant in g then g[descendant].generation else 0
  {
    && ancestor in g
    && descendant in g
    && (ancestor == descendant ||
        exists i :: 0 <= i < |g[descendant].parents| && IsAncestor(g, ancestor, g[descendant].parents[i]))
  }

  // ------------------------------------------------------------------ chains

  /** The commit that position `i` of `chain` must have as its only parent. */
  function Before(base: Sha, chain: seq<Sha>, i: nat): Sha
    requires i <= |chain|
  {
    if i == 0 then base else chain[i - 1]
  }

  /** `chain` leads from `base` (excluded) to `tip` through single-parent commits. */
  ghost predicate Chain(g: Graph, base: Sha, tip: Sha, chain: seq<Sha>) {
    && base in g
    && tip == Before(base, chain, |chain|)
    && forall i :: 0 <= i < |chain| ==> chain[i] in g && g[chain[i]].parents == [Before(base, chain, i)]
  }

  /** What the backward walk collects: the unique path, or nothing at a merge or a root. */
  function WalkBack(g: Graph, base: Sha, tip: Sha): (path: Option<seq<Sha>>)
    requires Acyclic(g)
    decreases if tip in g then g[tip].generation else 0
  {
    if tip == base then Some([])
    else if tip !in g || |g[tip].parents| != 1 then None
    else
      match WalkBack(g, base, g[tip].parents[0])
      case None => None
      case Some(earlier) => Some(earlier + [tip])
  }

  /** Dropping the tip leaves a chain to the commit before it. */
  lemma ChainPrefix(g: Graph, base: Sha, tip: Sha, chain: seq<Sha>)
    requires Chain(g, base, tip, chain) && chain != []
    ensures var last := |chain| - 1;
            Chain(g, base, Before(base, chain, last), chain[..last]) && g[tip].parents == [Before(base, chain, last)]
    ensures forall i :: 0 <= i < |chain| ==> Before(base, chain[..|chain| - 1], i) == Before(base, chain, i)
  {
  }

  lemma {:induction false} ChainClimbs(g: Graph, base: Sha, tip: Sha, chain: seq<Sha>)
    requires Acyclic(g) && Chain(g, base, tip, chain) && chain != []
    ensures g[base].generation < g[tip].generation
    decreases |chain|
  {
    ChainPrefix(g, base, tip, chain);
    var parent := g[tip].parents[0];
    if |chain| > 1 {
      ChainClimbs(g, base, parent, chain[..|chain| - 1]);
    }
  }

  lemma {:induction false} ChainIsWalked(g: Graph, base: Sha, tip: Sha, chain: seq<Sha>)
    requires Acyclic(g) && Chain(g, base, tip, chain)
    ensures WalkBack(g, base, tip) == Some(chain)
    decreases |chain|
  {
    if chain != [] {
      ChainClimbs(g, base, tip, chain);
      ChainPrefix(g, base, tip, chain);
      ChainIsWalked(g, base, g[tip].parents[0], chain[..|chain| - 1]);
      assert chain == chain[..|chain| - 1] + [tip];
    }
  }

  lemma {:induction false} WalkIsChain(g: Graph, base: Sha, tip: Sha)
    requires Acyclic(g) && base in g && WalkBack(g, base, tip).Some?
    ensures Chain(g, base, tip, WalkBack(g, base, tip).value)
    decreases if tip in g then g[tip].generation else 0
  {
    if tip != base {
      var parent := g[tip].parents[0];
      WalkIsChain(g, base, parent);
      var earlier := WalkBack(g, base, parent).value;
      var chain := earlier + [tip];
      forall i | 0 <= i < |chain|
        ensures chain[i] in g && g[chain[i]].parents == [Before(base, chain, i)]
      {
        if i < |earlier| {
          assert chain[i] == earlier[i] && Before(base, chain, i) == Before(base, earlier, i);
        } else {
          assert Before(base, chain, i) == Before(base, earlier, |earlier|) == parent;
        }
      }
    }
  }

  /** The walk decides: it finds a path exactly when a single-parent path exists, and that path is unique. */
  lemma WalkDecidesChains(g: Graph, base: Sha, tip: Sha)
    requires Acyclic(g) && base in g
    ensures WalkBack(g, base, tip).Some? <==> exists chain :: Chain(g, base, tip, chain)
    ensures forall c, d :: Chain(g, base, tip, c) && Chain(g, base, tip, d) ==> c == d
  {
    if WalkBack(g, base, tip).Some? {
      WalkIsChain(g, base, tip);
    }
    forall c | Chain(g, base, tip, c)
      ensures WalkBack(g, base, tip) == Some(c)
    {
      ChainIsWalked(g, base, tip, c);
    }
  }

  // ----------------------------------------------------------------- records

  /** One value of a durable record: absent key, JSON null, not an object ID, or an ID. */
  datatype Field<+T> = Missing | Null | Malformed | Id(value: T)

  datatype Record =
    | NotARecord
    | Record(commit: Field<Sha>, parent: Field<Sha>, treeAfter: Field<Tree>, tree: Field<Tree>, treeBefore: Field<Tree>)

  /** The recorded tree: `tree_after`, or `tree_sha` only when the first key is absent. */
  function RecordedTree(r: Record): Field<Tree>
    requires r.Record?
  {
    if r.treeAfter.Missing? then r.tree else r.treeAfter
  }

  /** Record `i` describes commit `i` of the chain. */
  ghost predicate Describes(g: Graph, base: Sha, chain: seq<Sha>, i: nat, r: Record)
    requires i < |chain|
  {
    && r.Record?
    && r.commit == Id(chain[i])
    && r.parent == Id(Before(base, chain, i))
    && chain[i] in g
    && RecordedTree(r) == Id(g[chain[i]].tree)
    && Before(base, chain, i) in g
    && (r.treeBefore.Missing? || r.treeBefore.Null? || r.treeBefore == Id(g[Before(base, chain, i)].tree))
  }

  ghost predicate RecordsMatch(g: Graph, base: Sha, chain: seq<Sha>, records: seq<Record>) {
    |records| == |chain| && forall i :: 0 <= i < |chain| ==> Describes(g, base, chain, i, records[i])
  }

  /** A recorded tree may stand under either key; the newer one wins when it is there, whatever it holds. */
  lemma EitherTreeKeyWillDo(g: Graph, base: Sha, chain: seq<Sha>, i: nat, r: Record, other: Field<Tree>)
    requires i < |chain| && r.Record? && !r.treeAfter.Missing?
    ensures Describes(g, base, chain, i, r) <==> Describes(g, base, chain, i, r.(tree := other))
    ensures Describes(g, base, chain, i, r) <==>
      Describes(g, base, chain, i, r.(treeAfter := Missing, tree := r.treeAfter))
    ensures Describes(g, base, chain, i, r) ==> chain[i] in g && r.treeAfter == Id(g[chain[i]].tree)
  {
  }

  /** A commit of the chain has one description: records that both describe it agree on everything they state. */
  lemma DescriptionIsUnique(g: Graph, base: Sha, chain: seq<Sha>, i: nat, r: Record, s: Record)
    requires i < |chain| && Describes(g, base, chain, i, r) && Describes(g, base, chain, i, s)
    ensures r.commit == s.commit && r.parent == s.parent && RecordedTree(r) == RecordedTree(s)
    ensures r.treeBefore.Id? && !s.treeBefore.Missing? && !s.treeBefore.Null? ==> r.treeBefore == s.treeBefore
  {
  }

  datatype ChainError = NotAnAncestor | NotLinear | RecordRefused | WrongTree

  /** What makes a given chain acceptable: an empty record list is not matched at all. */
  ghost predicate Accepts(g: Graph, base: Sha, tip: Sha, records: seq<Record>, approved: Option<Tree>,
                          chain: seq<Sha>) {
    && Chain(g, base, tip, chain)
    && (records == [] || RecordsMatch(g, base, chain, records))
    && (approved.Some? ==> tip in g && g[tip].tree == approved.value)
  }

  method ValidateLinearCommitChain(g: Graph, base: Sha, tip: Sha, records: seq<Record>, approved: Option<Tree>)
    returns (r: Result<seq<Sha>, ChainError>)
    requires Acyclic(g)
    ensures forall chain :: r == Success(chain) <==> Accepts(g, base, tip, records, approved, chain)
    ensures r == Failure(NotAnAncestor) <==> !IsAncestor(g, base, tip)
    ensures r == Failure(NotLinear) <==> IsAncestor(g, base, tip) && forall chain :: !Chain(g, base, tip, chain)
    ensures r == Failure(RecordRefused) <==>
      records != [] && exists chain :: Chain(g, base, tip, chain) && !RecordsMatch(g, base, chain, records)
  {
    if !IsAncestor(g, base, tip) {
      forall chain | Chain(g, base, tip, chain) ensures false {
        ChainReaches(g, base, tip, chain);
      }
      return Failure(NotAnAncestor);
    }
    var walked := WalkToBase(g, base, tip);
    if walked.None? {
      return Failure(NotLinear);
    }
    var commits := walked.value;
    if records != [] {
      var matching := MatchRecords(g, base, tip, commits, records);
      if !matching {
        return Failure(RecordRefused);
      }
    }
    if approved.Some? && g[tip].tree != approved.value {
      return Failure(WrongTree);
    }
    return Success(commits);
  }

  /** The backward walk: it collects the one path from `base` to `tip`, or stops at a merge or a root. */
  method WalkToBase(g: Graph, base: Sha, tip: Sha) returns (walked: Option<seq<Sha>>)
    requires Acyclic(g) && IsAncestor(g, base, tip)
    ensures forall chain :: Chain(g, base, tip, chain) <==> walked == Some(chain)
  {
    WalkDecidesChains(g, base, tip);
    var commits: seq<Sha> := [];
    var current := tip;
    assert WalkBack(g, base, tip).Some? ==> WalkBack(g, base, tip).value + commits == WalkBack(g, base, tip).value;
    while current != base
      invariant IsAncestor(g, base, current)
      invariant WalkBack(g, base, tip) ==
        (match WalkBack(g, base, current) case None => None case Some(earlier) => Some(earlier + commits))
      decreases g[current].generation
    {
      var parents := g[current].parents;
      if |parents| != 1 {
        return None;
      }
      ghost var later := commits;
      commits := [current] + commits;
      assert WalkBack(g, base, parents[0]).Some? ==>
        WalkBack(g, base, parents[0]).value + [current] + later == WalkBack(g, base, parents[0]).value + commits;
      current := parents[0];
    }
    assert [] + commits == commits;
    WalkIsChain(g, base, tip);
    return Some(commits);
  }

  /** The record walk: one record per commit, in order, each agreeing with its Git object. */
  method MatchRecords(g: Graph, base: Sha, tip: Sha, commits: seq<Sha>, records: seq<Record>) returns (matching: bool)
    requires Chain(g, base, tip, commits)
    ensures matching <==> RecordsMatch(g, base, commits, records)
  {
    var recorded := 0;
    var parent := base;
    while recorded < |records|
      invariant 0 <= recorded <= |records| && recorded <= |commits|
      invariant parent == Before(base, commits, recorded) && parent in g
      invariant forall i :: 0 <= i < recorded ==> Describes(g, base, commits, i, records[i])
    {
      var item := records[recorded];
      if item.NotARecord? || !item.commit.Id? || !RecordedTree(item).Id? {
        assert recorded < |commits| ==> !Describes(g, base, commits, recorded, item);
        return false;
      }
      if item.parent != Id(parent) || recorded >= |commits| || item.commit.value != commits[recorded] {
        assert recorded < |commits| ==> !Describes(g, base, commits, recorded, item);
        return false;
      }
      var commit := item.commit.value;
      if g[commit].parents != [parent] || RecordedTree(item).value != g[commit].tree {
        assert !Describes(g, base, commits, recorded, item);
        return false;
      }
      if !item.treeBefore.Missing? && !item.treeBefore.Null? && item.treeBefore != Id(g[parent].tree) {
        assert !Describes(g, base, commits, recorded, item);
        return false;
      }
      recorded := recorded + 1;
      parent := commit;
    }
    return recorded == |commits|;
  }

  /** A single-parent path is an ancestry. */
  lemma {:induction false} ChainReaches(g: Graph, base: Sha, tip: Sha, chain: seq<Sha>)
    requires Acyclic(g) && Chain(g, base, tip, chain)
    ensures IsAncestor(g, base, tip)
    decreases |chain|
  {
    if chain != [] {
      ChainPrefix(g, base, tip, chain);
      ChainReaches(g, base, g[tip].parents[0], chain[..|chain| - 1]);
    }
  }

  // ----------------------------------------------------------- scope of a diff

  /** The paths `git diff` reports between two trees, renames split. */
  function DiffPaths(before: Tree, after: Tree): set<Path> {
    set p | p in before.Keys + after.Keys &&
            !(p in before && p in after && before[p] == after[p])
  }

  /** The commit gate's scope rule: an empty scope restricts nothing. */
  predicate WithinScope(before: Tree, after: Tree, scope: set<Path>) {
    scope == {} || DiffPaths(before, after) <= scope
  }

  // ---------------------------------------------------------- grown histories

  /** A branch as the harness grows it: its objects, its tip, and the records written so far. */
  datatype History = History(graph: Graph, tip: Sha, records: seq<Record>)

  /** One accepted step: the tree to commit, the ID Git's hash gives the commit, and the scope it was gated under. */
  datatype AcceptedStep = AcceptedStep(sha: Sha, tree: Tree, scope: set<Path>)

  /** The step passed its gate; `git commit-tree` is content addressed: an ID already in use names that very commit. */
  ghost predicate CanCommit(h: History, s: AcceptedStep) {
    && h.tip in h.graph
    && h.graph[h.tip].tree != s.tree
    && WithinScope(h.graph[h.tip].tree, s.tree, s.scope)
    && (s.sha in h.graph ==> h.graph[s.sha].parents == [h.tip] && h.graph[s.sha].tree == s.tree)
  }

  function WithCommit(g: Graph, parent: Sha, sha: Sha, tree: Tree): Graph
    requires parent in g
  {
    if sha in g then g else g[sha := Commit([parent], tree, g[parent].generation + 1)]
  }

  function AcceptedStepRecord(h: History, s: AcceptedStep): Record
    requires h.tip in h.graph
  {
    Record(Id(s.sha), Id(h.tip), Id(s.tree), Missing, Id(h.graph[h.tip].tree))
  }

  function AcceptStep(h: History, s: AcceptedStep): History
    requires h.tip in h.graph
  {
    History(WithCommit(h.graph, h.tip, s.sha, s.tree), s.sha, h.records + [AcceptedStepRecord(h, s)])
  }

  /** Commits are never replaced, only added. */
  ghost predicate Extends(g: Graph, larger: Graph) {
    forall c :: c in g ==> c in larger && larger[c] == g[c]
  }

  /** How a history goes on: a step of its own, or commits that others add meanwhile. */
  datatype Growth = Accept(step: AcceptedStep) | Meanwhile(graph: Graph)

  ghost predicate GrowsBy(h: History, growth: Growth, next: History) {
    match growth
    case Accept(s) => CanCommit(h, s) && next == AcceptStep(h, s)
    case Meanwhile(g) => Extends(h.graph, g) && Acyclic(g) && next == h.(graph := g)
  }

  /** Every history reached from `start` by the given growth, in order. */
  ghost predicate Grown(start: History, growth: seq<Growth>, h: History) {
    if growth == [] then h == start
    else
      var last := |growth| - 1;
      exists before :: Grown(start, growth[..last], before) && GrowsBy(before, growth[last], h)
  }

  /** The commits of the steps, in order. */
  function Shas(growth: seq<Growth>): seq<Sha> {
    if growth == [] then []
    else
      var last := |growth| - 1;
      Shas(growth[..last]) + if growth[last].Accept? then [growth[last].step.sha] else []
  }

  /** The scopes the steps were gated under, in order. */
  function Scopes(growth: seq<Growth>): seq<set<Path>> {
    if growth == [] then []
    else
      var last := |growth| - 1;
      Scopes(growth[..last]) + if growth[last].Accept? then [growth[last].step.scope] else []
  }

  /** Every history the harness can grow validates, with its own records and against its own last tree. */
  lemma GrownHistoriesAreAccepted(start: History, growth: seq<Growth>, h: History)
    requires Acyclic(start.graph) && start.tip in start.graph && start.records == []
    requires Grown(start, growth, h)
    ensures Acyclic(h.graph) && h.tip in h.graph
    ensures Accepts(h.graph, start.tip, h.tip, h.records, Some(h.graph[h.tip].tree), Shas(growth))
    ensures RecordsMatch(h.graph, start.tip, Shas(growth), h.records)
  {
    GrownHistoriesMatch(start, growth, h);
  }

  lemma {:induction false} GrownHistoriesMatch(start: History, growth: seq<Growth>, h: History)
    requires Acyclic(start.graph) && start.tip in start.graph && start.records == []
    requires Grown(start, growth, h)
    ensures Acyclic(h.graph) && Extends(start.graph, h.graph)
    ensures Chain(h.graph, start.tip, h.tip, Shas(growth)) && RecordsMatch(h.graph, start.tip, Shas(growth), h.records)
    decreases |growth|
  {
    if growth != [] {
      var last := |growth| - 1;
      var earlier := growth[..last];
      var before :| Grown(start, earlier, before) && GrowsBy(before, growth[last], h);
      GrownHistoriesMatch(start, earlier, before);
      match growth[last] {
        case Accept(s) => ExtendAccepted(before, start.tip, Shas(earlier), s);
        case Meanwhile(g) =>
          OthersChangeNothing(before, g, start.tip, Shas(earlier));
          assert Shas(growth) == Shas(earlier);
      }
    }
  }

  /** Commits that others add leave the chain and its records alone. */
  lemma OthersChangeNothing(h: History, g: Graph, base: Sha, chain: seq<Sha>)
    requires Extends(h.graph, g)
    requires Chain(h.graph, base, h.tip, chain) && RecordsMatch(h.graph, base, chain, h.records)
    ensures Chain(g, base, h.tip, chain) && RecordsMatch(g, base, chain, h.records)
  {
    forall i | 0 <= i < |chain| ensures Describes(g, base, chain, i, h.records[i]) {
      assert Describes(h.graph, base, chain, i, h.records[i]);
    }
  }

  /** One more accepted step keeps the chain, its records and the graph well formed. */
  lemma ExtendAccepted(h: History, base: Sha, chain: seq<Sha>, s: AcceptedStep)
    requires Acyclic(h.graph) && CanCommit(h, s)
    requires Chain(h.graph, base, h.tip, chain) && RecordsMatch(h.graph, base, chain, h.records)
    ensures var h' := AcceptStep(h, s);
            && Acyclic(h'.graph) && Extends(h.graph, h'.graph)
            && h'.graph[s.sha].tree == s.tree
            && Chain(h'.graph, base, s.sha, chain + [s.sha])
            && RecordsMatch(h'.graph, base, chain + [s.sha], h'.records)
  {
    var h' := AcceptStep(h, s);
    var longer := chain + [s.sha];
    forall i | 0 <= i < |longer|
      ensures longer[i] in h'.graph && h'.graph[longer[i]].parents == [Before(base, longer, i)]
      ensures Describes(h'.graph, base, longer, i, h'.records[i])
    {
      if i < |chain| {
        assert longer[i] == chain[i] && Before(base, longer, i) == Before(base, chain, i);
        assert Describes(h.graph, base, chain, i, h.records[i]);
      } else {
        assert Before(base, longer, i) == h.tip;
      }
    }
  }

  // ------------------------------------------------------- scope of a chain

  /** Commit `child` was let through on top of `parent` under `scope`. */
  predicate PassedGate(g: Graph, parent: Sha, child: Sha, scope: set<Path>) {
    parent in g && child in g && WithinScope(g[parent].tree, g[child].tree, scope)
  }

  /** Every commit of the chain was let through, each under its own scope. */
  ghost predicate Gated(g: Graph, base: Sha, chain: seq<Sha>, scopes: seq<set<Path>>) {
    |scopes| == |chain| && forall i :: 0 <= i < |chain| ==> PassedGate(g, Before(base, chain, i), chain[i], scopes[i])
  }

  /** The union of the first `n` scopes. */
  function UnionOf(scopes: seq<set<Path>>, n: nat): set<Path>
    requires n <= |scopes|
  {
    if n == 0 then {} else UnionOf(scopes, n - 1) + scopes[n - 1]
  }

  /** Gated commits, however many, change no path outside the union of their scopes. */
  lemma CumulativeScope(g: Graph, base: Sha, tip: Sha, chain: seq<Sha>, scopes: seq<set<Path>>)
    requires Chain(g, base, tip, chain) && Gated(g, base, chain, scopes)
    requires forall i :: 0 <= i < |scopes| ==> scopes[i] != {}
    ensures DiffPaths(g[base].tree, g[tip].tree) <= UnionOf(scopes, |scopes|)
  {
    CumulativeScopeTo(g, base, chain, scopes, |chain|);
  }

  lemma {:induction false} CumulativeScopeTo(g: Graph, base: Sha, chain: seq<Sha>, scopes: seq<set<Path>>, n: nat)
    requires base in g && n <= |chain| == |scopes|
    requires forall i :: 0 <= i < n ==> scopes[i] != {} && PassedGate(g, Before(base, chain, i), chain[i], scopes[i])
    ensures Before(base, chain, n) in g
    ensures DiffPaths(g[base].tree, g[Before(base, chain, n)].tree) <= UnionOf(scopes, n)
  {
    if n > 0 {
      CumulativeScopeTo(g, base, chain, scopes, n - 1);
      assert PassedGate(g, Before(base, chain, n - 1), chain[n - 1], scopes[n - 1]);
      DiffsCompose(g[base].tree, g[Before(base, chain, n - 1)].tree, g[chain[n - 1]].tree);
    }
  }

  lemma DiffsCompose(a: Tree, b: Tree, c: Tree)
    ensures DiffPaths(a, c) <= DiffPaths(a, b) + DiffPaths(b, c)
  {
  }

  lemma ExtendGated(h: History, base: Sha, chain: seq<Sha>, scopes: seq<set<Path>>, s: AcceptedStep)
    requires CanCommit(h, s) && h.tip == Before(base, chain, |chain|) && Gated(h.graph, base, chain, scopes)
    ensures Gated(AcceptStep(h, s).graph, base, chain + [s.sha], scopes + [s.scope])
  {
    var g := AcceptStep(h, s).graph;
    var longer := chain + [s.sha];
    forall i | 0 <= i < |longer|
      ensures PassedGate(g, Before(base, longer, i), longer[i], (scopes + [s.scope])[i])
    {
      assert Before(base, longer, i) == Before(base, chain, i);
      if i < |chain| {
        assert PassedGate(h.graph, Before(base, chain, i), chain[i], scopes[i]);
      }
    }
  }

  lemma OthersKeepGated(g: Graph, larger: Graph, base: Sha, chain: seq<Sha>, scopes: seq<set<Path>>)
    requires Extends(g, larger) && Gated(g, base, chain, scopes)
    ensures Gated(larger, base, chain, scopes)
  {
    forall i | 0 <= i < |chain| ensures PassedGate(larger, Before(base, chain, i), chain[i], scopes[i]) {
      assert PassedGate(g, Before(base, chain, i), chain[i], scopes[i]);
    }
  }

  /** Every commit of a grown history passed the gate under its own step's scope. */
  lemma {:induction false} GrownHistoriesAreGated(start: History, growth: seq<Growth>, h: History)
    requires start.tip in start.graph && Grown(start, growth, h)
    ensures h.tip == Before(start.tip, Shas(growth), |Shas(growth)|)
    ensures Gated(h.graph, start.tip, Shas(growth), Scopes(growth))
    decreases |growth|
  {
    if growth != [] {
      var last := |growth| - 1;
      var earlier := growth[..last];
      var before :| Grown(start, earlier, before) && GrowsBy(before, growth[last], h);
      GrownHistoriesAreGated(start, earlier, before);
      match growth[last] {
        case Accept(s) => ExtendGated(before, start.tip, Shas(earlier), Scopes(earlier), s);
        case Meanwhile(g) =>
          OthersKeepGated(before.graph, g, start.tip, Shas(earlier), Scopes(earlier));
          assert Shas(growth) == Shas(earlier) && Scopes(growth) == Scopes(earlier);
      }
    }
  }

  /**
   However long the history, its cumulative change lies inside the union of the step scopes,
   if none of them is empty.
   */
  lemma GrownHistoriesStayInScope(start: History, growth: seq<Growth>, h: History)
    requires Acyclic(start.graph) && start.tip in start.graph && start.records == []
    requires Grown(start, growth, h)
    requires forall i :: 0 <= i < |Scopes(growth)| ==> Scopes(growth)[i] != {}
    ensures h.tip in h.graph
      && DiffPaths(start.graph[start.tip].tree, h.graph[h.tip].tree) <= UnionOf(Scopes(growth), |Scopes(growth)|)
  {
    GrownHistoriesMatch(start, growth, h);
    GrownHistoriesAreGated(start, growth, h);
    CumulativeScope(h.graph, start.tip, h.tip, Shas(growth), Scopes(growth));
  }

  // ------------------------------------------- what an empty scope lets through

  function Repeated(c: char, n: nat): (s: string)
    ensures |s| == n
  {
    if n == 0 then "" else Repeated(c, n - 1) + [c]
  }

  lemma {:induction false} LongerThanAll(paths: set<Path>) returns (n: nat)
    ensures forall p :: p in paths ==> |p| < n
    decreases |paths|
  {
    if paths == {} {
      n := 0;
    } else {
      var p :| p in paths;
      var m := LongerThanAll(paths - {p});
      n := if |p| < m then m else |p| + 1;
      assert forall x :: x in paths ==> x == p || x in paths - {p};
    }
  }

  /** Some path is in none of finitely many given ones: a longer one. */
  lemma FreshPath(paths: set<Path>) returns (path: Path)
    ensures path !in paths
  {
    var n := LongerThanAll(paths);
    path := Repeated('p', n);
    assert path in paths ==> |path| < n;
  }

  /** A root commit of an empty tree, and nothing else. */
  const ROOT: History := History(map["" := Commit([], map[], 0)], "", [])

  /** One path of a scope, or the given one where the scope restricts nothing. */
  ghost function ScopedPath(scope: set<Path>, other: Path): (p: Path)
    ensures scope != {} ==> p in scope
    ensures scope == {} ==> p == other
  {
    if scope == {} then other else var p :| p in scope; p
  }

  /** After `n` steps the IDs and contents are no longer than `n`, so longer ones are new. */
  ghost predicate NothingLongerThan(h: History, n: nat) {
    && h.tip in h.graph && (forall c :: c in h.graph ==> |c| <= n)
    && (forall p :: p in h.graph[h.tip].tree ==> |h.graph[h.tip].tree[p]| <= n)
  }

  /** A step that writes new content to one path of its scope, or to `other` where the scope is empty. */
  ghost function WritingStep(h: History, scope: set<Path>, other: Path, n: nat): AcceptedStep
    requires h.tip in h.graph
  {
    AcceptedStep(Repeated('c', n), h.graph[h.tip].tree[ScopedPath(scope, other) := Repeated('x', n)], scope)
  }

  lemma WritingStepIsAccepted(h: History, scope: set<Path>, other: Path, n: nat)
    requires NothingLongerThan(h, n)
    ensures var s := WritingStep(h, scope, other, n + 1);
            && CanCommit(h, s) && NothingLongerThan(AcceptStep(h, s), n + 1)
            && h.graph[h.tip].tree.Keys + {ScopedPath(scope, other)} == AcceptStep(h, s).graph[s.sha].tree.Keys
  {
    var s := WritingStep(h, scope, other, n + 1);
    var p := ScopedPath(scope, other);
    assert |s.tree[p]| == n + 1;
    assert DiffPaths(h.graph[h.tip].tree, s.tree) <= {p};
  }

  /**
   Steps can be accepted under any scopes at all, each of them changing something; where one of the
   scopes is empty, the paths changed may include any given one.
   */
  lemma {:induction false} AnyScopesCanBeGrown(scopes: seq<set<Path>>, path: Path)
    returns (growth: seq<Growth>, h: History)
    ensures Grown(ROOT, growth, h) && Scopes(growth) == scopes && NothingLongerThan(h, |scopes|)
    ensures {} in scopes ==> path in h.graph[h.tip].tree
    decreases |scopes|
  {
    if scopes == [] {
      growth, h := [], ROOT;
    } else {
      var n := |scopes| - 1;
      var earlier, before := AnyScopesCanBeGrown(scopes[..n], path);
      WritingStepIsAccepted(before, scopes[n], path, n);
      var step := Accept(WritingStep(before, scopes[n], path, n + 1));
      growth, h := earlier + [step], AcceptStep(before, step.step);
      assert growth[..|growth| - 1] == earlier && scopes == scopes[..n] + [scopes[n]];
      assert GrowsBy(before, growth[|growth| - 1], h);
    }
  }

  /** Histories grown under these scopes change no path outside their union. */
  ghost predicate ScopesBoundHistories(scopes: seq<set<Path>>) {
    forall start: History, growth: seq<Growth>, h: History |
      Acyclic(start.graph) && start.tip in start.graph && start.records == [] &&
      Scopes(growth) == scopes && Grown(start, growth, h) ::
        h.tip in h.graph && DiffPaths(start.graph[start.tip].tree, h.graph[h.tip].tree) <= UnionOf(scopes, |scopes|)
  }

  /** Chains of commits gated under these scopes change no path outside their union. */
  ghost predicate ScopesBoundChains(scopes: seq<set<Path>>) {
    forall g: Graph, base: Sha, tip: Sha, chain: seq<Sha> |
      Acyclic(g) && Chain(g, base, tip, chain) && Gated(g, base, chain, scopes) ::
        DiffPaths(g[base].tree, g[tip].tree) <= UnionOf(scopes, |scopes|)
  }

  /** A chain of commits, each let through under its own scope, that changes the path. */
  ghost predicate ChainChanges(path: Path, g: Graph, base: Sha, tip: Sha, chain: seq<Sha>, scopes: seq<set<Path>>) {
    && Acyclic(g) && Chain(g, base, tip, chain) && Gated(g, base, chain, scopes)
    && path in DiffPaths(g[base].tree, g[tip].tree)
  }

  /** A history grown from the root under these scopes, which changes the path, and so does its chain. */
  ghost predicate HistoryChanges(path: Path, growth: seq<Growth>, h: History, scopes: seq<set<Path>>) {
    && Grown(ROOT, growth, h) && Scopes(growth) == scopes && h.tip in h.graph
    && path in DiffPaths(ROOT.graph[ROOT.tip].tree, h.graph[h.tip].tree)
    && ChainChanges(path, h.graph, ROOT.tip, h.tip, Shas(growth), scopes)
  }

  /** One empty scope, wherever it stands, admits a change of any path by commits the gate lets through. */
  lemma EmptyScopeAdmitsEveryPath(scopes: seq<set<Path>>, path: Path)
    requires {} in scopes
    ensures exists growth: seq<Growth>, h: History :: HistoryChanges(path, growth, h, scopes)
  {
    var growth, h := AnyScopesCanBeGrown(scopes, path);
    GrownHistoriesMatch(ROOT, growth, h);
    GrownHistoriesAreGated(ROOT, growth, h);
    assert HistoryChanges(path, growth, h, scopes);
  }

  lemma BoundHistoriesChange(path: Path, growth: seq<Growth>, h: History, scopes: seq<set<Path>>)
    requires ScopesBoundHistories(scopes) && HistoryChanges(path, growth, h, scopes)
    ensures path in UnionOf(scopes, |scopes|)
  {
    assert Acyclic(ROOT.graph);
    assert Grown(ROOT, growth, h);
  }

  lemma BoundChainsChange(path: Path, g: Graph, base: Sha, tip: Sha, chain: seq<Sha>, scopes: seq<set<Path>>)
    requires ScopesBoundChains(scopes) && ChainChanges(path, g, base, tip, chain, scopes)
    ensures path in UnionOf(scopes, |scopes|)
  {
  }

  /** With an empty scope among them, some change leaves their union. */
  lemma EmptyScopeBoundsNothing(scopes: seq<set<Path>>)
    requires {} in scopes
    ensures !ScopesBoundHistories(scopes) && !ScopesBoundChains(scopes)
  {
    var path := FreshPath(UnionOf(scopes, |scopes|));
    EmptyScopeAdmitsEveryPath(scopes, path);
    var growth, h :| HistoryChanges(path, growth, h, scopes);
    if ScopesBoundHistories(scopes) {
      BoundHistoriesChange(path, growth, h, scopes);
    }
    if ScopesBoundChains(scopes) {
      BoundChainsChange(path, h.graph, ROOT.tip, h.tip, Shas(growth), scopes);
    }
  }

  lemma ScopesBoundHistoriesWhen(scopes: seq<set<Path>>)
    requires {} !in scopes
    ensures ScopesBoundHistories(scopes)
  {
    forall start: History, growth: seq<Growth>, h: History |
        Acyclic(start.graph) && start.tip in start.graph && start.records == [] &&
        Scopes(growth) == scopes && Grown(start, growth, h)
      ensures h.tip in h.graph
      ensures DiffPaths(start.graph[start.tip].tree, h.graph[h.tip].tree) <= UnionOf(scopes, |scopes|)
    {
      GrownHistoriesStayInScope(start, growth, h);
    }
  }

  lemma ScopesBoundChainsWhen(scopes: seq<set<Path>>)
    requires {} !in scopes
    ensures ScopesBoundChains(scopes)
  {
    forall g: Graph, base: Sha, tip: Sha, chain: seq<Sha> |
        Acyclic(g) && Chain(g, base, tip, chain) && Gated(g, base, chain, scopes)
      ensures DiffPaths(g[base].tree, g[tip].tree) <= UnionOf(scopes, |scopes|)
    {
      CumulativeScope(g, base, tip, chain, scopes);
    }
  }

  /**
   The exact condition.  Scopes bound the cumulative change of every history grown, and of every chain
   gated, under them if and only if none of them is empty.
   */
  lemma ScopesBoundChangesExactlyWhen(scopes: seq<set<Path>>)
    ensures ScopesBoundHistories(scopes) <==> {} !in scopes
    ensures ScopesBoundChains(scopes) <==> {} !in scopes
  {
    if {} in scopes {
      EmptyScopeBoundsNothing(scopes);
    } else {
      ScopesBoundHistoriesWhen(scopes);
      ScopesBoundChainsWhen(scopes);
    }
  }
}
