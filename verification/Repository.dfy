/**
 One Git repository with one linked worktree, and the commands the harness runs on it.

 Git itself is modelled by what each command does to the fields below.  The
 porcelain status is any function of the HEAD tree, the index and the tree that
 `git add --all` would record; the ignore rules are fixed.
 */
module Repository {
  import opened Common
  import opened CommitGraph

  datatype Ref = Branch(name: string) | Tracking(name: string) | Other(name: string)

  datatype Head = OnBranch(ref: Ref) | Detached(commit: Sha)

  datatype GitError =
    | HeadUnreadable | OwnershipChanged | UnsafeName | NotRestored
    | NotOnBranch | UnknownCommit | NothingToCommit | HeadMoved

  // -------------------------------------------------------- names of paths

  predicate Separator(c: char) {
    c == '/' || c == '\\'
  }

  /** Some component between separators of either kind is `..`. */
  predicate HasDotDot(p: Path) {
    exists i :: 0 <= i < |p| && DotDotAt(p, i)
  }

  predicate DotDotAt(p: Path, i: nat) {
    && i + 2 <= |p| && p[i] == '.' && p[i + 1] == '.'
    && (i == 0 || Separator(p[i - 1])) && (i + 2 == |p| || Separator(p[i + 2]))
  }

  /** What Windows would read as a drive or a network share. */
  predicate HasDrive(p: Path) {
    |p| >= 2 && (if Separator(p[0]) then Separator(p[1]) else p[1] == ':')
  }

  /** The guard in front of every path the harness unlinks; it reads a name the POSIX and the Windows way. */
  predicate SafeName(p: Path) {
    p != "" && '\0' !in p && p[0] != '/' && !HasDrive(p) && !HasDotDot(p)
  }

  /** The names a tree listing accepts. */
  predicate ListedName(p: Path) {
    p != "" && '\0' !in p && p[0] != '/' && '\\' !in p && !HasDotDot(p)
  }

  /** The components of a name, between separators of either kind. */
  function Components(p: Path): (parts: seq<string>)
    ensures |parts| > 0
  {
    if p == "" then [""]
    else if Separator(p[0]) then [""] + Components(p[1..])
    else
      var rest := Components(p[1..]);
      [[p[0]] + rest[0]] + rest[1..]
  }

  /** The first component is what comes before the first separator. */
  lemma {:induction false} FirstComponent(p: Path)
    ensures var first := Components(p)[0];
            && first <= p && (forall i :: 0 <= i < |first| ==> !Separator(p[i]))
            && (|first| < |p| ==> Separator(p[|first|]))
  {
    if p != "" && !Separator(p[0]) {
      FirstComponent(p[1..]);
    }
  }

  lemma FirstIsDotDot(p: Path)
    ensures Components(p)[0] == ".." <==> DotDotAt(p, 0)
  {
    FirstComponent(p);
    var first := Components(p)[0];
    if DotDotAt(p, 0) {
      assert |first| == 2;
    }
  }

  lemma {:induction false} LaterIsDotDot(p: Path)
    ensures ".." in Components(p)[1..] <==> exists i :: 0 < i < |p| && DotDotAt(p, i)
  {
    if p != "" {
      var rest := p[1..];
      LaterIsDotDot(rest);
      FirstIsDotDot(rest);
      forall i | 0 < i < |p|
        ensures DotDotAt(p, i) <==> if i == 1 then Separator(p[0]) && DotDotAt(rest, 0) else DotDotAt(rest, i - 1)
      {
      }
      if exists i :: 0 < i < |rest| && DotDotAt(rest, i) {
        var i :| 0 < i < |rest| && DotDotAt(rest, i);
        assert DotDotAt(p, i + 1);
      }
      if Separator(p[0]) {
        assert Components(p)[1..] == [Components(rest)[0]] + Components(rest)[1..];
        assert DotDotAt(rest, 0) ==> DotDotAt(p, 1);
      } else {
        assert Components(p)[1..] == Components(rest)[1..];
      }
    }
  }

  /** A name has a parent reference exactly when one of its components is one. */
  lemma HasDotDotExactlyWhen(p: Path)
    ensures HasDotDot(p) <==> ".." in Components(p)
  {
    FirstIsDotDot(p);
    LaterIsDotDot(p);
    assert Components(p) == [Components(p)[0]] + Components(p)[1..];
  }

  /** On names without colons and backslashes both guards agree, and refuse only what is empty, rooted or climbs. */
  lemma OrdinaryNamesAreAccepted(p: Path)
    requires ':' !in p && '\\' !in p
    ensures SafeName(p) <==> ListedName(p)
    ensures SafeName(p) <==> p != "" && '\0' !in p && p[0] != '/' && ".." !in Components(p)
  {
    HasDotDotExactlyWhen(p);
    assert |p| >= 2 ==> p[0] in p && p[1] in p;
  }

  /** Which names the harness unlinks, and which names a tree may have to be listed. */
  datatype NameGuard = NameGuard(safe: Path -> bool, listed: Path -> bool)

  /** The guard of the harness; what follows holds of any guard. */
  const HARNESS_GUARD := NameGuard(SafeName, ListedName)

  /**
   Git tracks and lists a name such as `a:b` on a POSIX system, but the guard refuses to unlink it.  Of the
   names that are listed it refuses exactly those with a colon in the second place.
   */
  lemma GuardRefusesDrives(name: Path)
    requires ListedName(name)
    ensures SafeName(name) <==> |name| < 2 || name[1] != ':'
  {
    assert |name| >= 2 ==> name[0] in name;
  }

  /** There are such names. */
  lemma DrivesAreListed(drive: char, rest: Path)
    requires 'a' <= drive <= 'z' && forall i :: 0 <= i < |rest| ==> 'a' <= rest[i] <= 'z'
    ensures ListedName([drive, ':'] + rest) && !SafeName([drive, ':'] + rest)
  {
    var name: Path := [drive, ':'] + rest;
    assert name[1] == ':' && forall i :: 2 <= i < |name| ==> name[i] == rest[i - 2];
  }

  /** A backslash is just a character of a POSIX name: it may be unlinked, but a tree that has it is not listed. */
  lemma ListingRefusesBackslashes(name: Path, at: nat)
    requires at < |name| && name[at] == '\\'
    requires forall i :: 0 <= i < |name| && i != at ==> 'a' <= name[i] <= 'z'
    ensures SafeName(name) && !ListedName(name)
  {
    assert name[at] in name;
    assert |name| > 1 ==> name[1] != ':' && (name[0] == '\\' ==> name[1] != '\\');
    assert forall i :: 0 <= i < |name| ==> name[i] != '.' && name[i] != '\0';
  }

  // ------------------------------------------------ the candidate and its files

  /** What `git add --all` followed by `git write-tree` records, on a copy of the index. */
  function CandidateTree(ignored: Path -> bool, index: Tree, files: Tree): Tree {
    map p | p in files && (p in index || !ignored(p)) :: files[p]
  }

  /** The files no snapshot sees: ignored and not in the index. */
  function Hidden(ignored: Path -> bool, index: Tree, files: Tree): Tree {
    map p | p in files && p !in index && ignored(p) :: files[p]
  }

  /** Overwrite `paths`, and only them, with their state in `target`. */
  function Reinstated(target: Tree, paths: set<Path>, files: Tree): Tree {
    (map p | p in files && p !in paths :: files[p]) + (map p | p in target && p in paths :: target[p])
  }

  /** Writing what `target` has, then removing what it lacks, reinstates it. */
  lemma ReinstatedInTwoSteps(target: Tree, paths: set<Path>, files: Tree)
    ensures var written := files + map p | p in target && p in paths :: target[p];
            written - (set p | p in paths && p !in target) == Reinstated(target, paths, files)
  {
  }

  /** The harness can overwrite these paths: it can list the tree, and unlink what the tree does not have. */
  predicate CanOverwrite(guard: NameGuard, target: Tree, paths: set<Path>) {
    || paths == {}
    || ((forall p :: p in target ==> guard.listed(p)) && forall p :: p in paths && p !in target ==> guard.safe(p))
  }

  /** One name in the tree that is not listed keeps everything from being overwritten; accepted names never do. */
  lemma UnlistedNameBlocksRestore(guard: NameGuard, target: Tree, paths: set<Path>, path: Path)
    requires path in target && !guard.listed(path) && paths != {}
    ensures !CanOverwrite(guard, target, paths)
  {
  }

  /** Under the guard of the harness, ordinary names can always be put back. */
  lemma OrdinaryNamesCanBeOverwritten(target: Tree, paths: set<Path>)
    requires forall p :: p in target.Keys + paths ==>
      ':' !in p && '\\' !in p && '\0' !in p && p != "" && p[0] != '/' && ".." !in Components(p)
    ensures CanOverwrite(HARNESS_GUARD, target, paths)
  {
    forall p | p in target.Keys + paths ensures SafeName(p) && ListedName(p) {
      OrdinaryNamesAreAccepted(p);
    }
  }

  /** What a refused overwriting leaves: nothing done without a listing, otherwise some safe names already unlinked. */
  ghost predicate LeftHalfway(guard: NameGuard, target: Tree, paths: set<Path>, before: Tree, after: Tree) {
    if exists p :: p in target && !guard.listed(p) then after == before
    else
      UnlinkedSome(guard, (set p | p in paths && p !in target),
          before + (map p | p in target && p in paths :: target[p]), after)
  }

  ghost predicate UnlinkedSome(guard: NameGuard, absent: set<Path>, before: Tree, after: Tree) {
    exists removed :: removed <= absent && (forall p :: p in removed ==> guard.safe(p)) && after == before - removed
  }

  /** The end state of a process, told against the index and candidate to go back to, and the paths to overwrite. */
  predicate CoversDiff(ignored: Path -> bool, index: Tree, candidate: Tree, endIndex: Tree, files: Tree,
                       paths: set<Path>) {
    && (forall p :: p in candidate ==> p in index || !ignored(p))
    && DiffPaths(candidate, CandidateTree(ignored, endIndex, files)) <= paths
    && (forall p :: p in index && p !in candidate && p !in paths ==> p in endIndex)
  }

  /**
   Restoring only a diff is enough: once the index is back, overwriting the paths
   that differ recreates the whole candidate.
   */
  lemma DiffRestoresCandidate(ignored: Path -> bool, index: Tree, candidate: Tree, endIndex: Tree, files: Tree,
                              paths: set<Path>)
    requires CoversDiff(ignored, index, candidate, endIndex, files, paths)
    ensures CandidateTree(ignored, index, Reinstated(candidate, paths, files)) == candidate
  {
    var restored := Reinstated(candidate, paths, files);
    forall p
      ensures p in candidate ==> p in restored && restored[p] == candidate[p]
      ensures p in restored && p !in candidate ==> p !in index && ignored(p)
    {
      RestoredPath(ignored, index, candidate, endIndex, files, paths, p);
    }
  }

  /** Every other file is a hidden one, and it is kept. */
  lemma DiffKeepsHiddenFiles(ignored: Path -> bool, index: Tree, candidate: Tree, endIndex: Tree, files: Tree,
                             paths: set<Path>)
    requires CoversDiff(ignored, index, candidate, endIndex, files, paths)
    ensures Reinstated(candidate, paths, files) == candidate + (Hidden(ignored, endIndex, files) - paths)
  {
    var restored := Reinstated(candidate, paths, files);
    forall p
      ensures p in restored <==> p in candidate || (p in Hidden(ignored, endIndex, files) && p !in paths)
      ensures p in candidate ==> restored[p] == candidate[p]
    {
      RestoredPath(ignored, index, candidate, endIndex, files, paths, p);
    }
  }

  /** The same, one path at a time. */
  lemma RestoredPath(ignored: Path -> bool, index: Tree, candidate: Tree, endIndex: Tree, files: Tree,
                     paths: set<Path>, p: Path)
    requires p in candidate ==> p in index || !ignored(p)
    requires p in DiffPaths(candidate, CandidateTree(ignored, endIndex, files)) ==> p in paths
    requires p in index && p !in candidate && p !in paths ==> p in endIndex
    ensures var restored := Reinstated(candidate, paths, files);
            && (p in restored <==> p in candidate || (p in Hidden(ignored, endIndex, files) && p !in paths))
            && (p in candidate ==> restored[p] == candidate[p])
            && (p in restored && p !in candidate ==> p !in index && ignored(p))
  {
    var ended := CandidateTree(ignored, endIndex, files);
    if p !in paths {
      assert p !in DiffPaths(candidate, ended);
      assert p in candidate <==> p in ended;
    }
  }

  function Cleaned(ignored: Path -> bool, index: Tree, files: Tree): Tree {
    map p | p in files && (p in index || ignored(p)) :: files[p]
  }

  /** The files a rewind to `tree` leaves behind once the index equals `tree`. */
  lemma RewindRecreates(ignored: Path -> bool, tree: Tree, index: Tree, files: Tree)
    requires CandidateTree(ignored, index, files) == tree ==> index == tree
    ensures var before := CandidateTree(ignored, index, files);
            var restored := if before != tree then Reinstated(tree, DiffPaths(tree, before), files) else files;
            && Cleaned(ignored, tree, restored) == restored
            && CandidateTree(ignored, tree, restored) == tree
            && restored == tree + (Hidden(ignored, index, files) - DiffPaths(tree, before))
  {
    var before := CandidateTree(ignored, index, files);
    var paths := DiffPaths(tree, before);
    DiffRestoresCandidate(ignored, tree, tree, index, files, paths);
    DiffKeepsHiddenFiles(ignored, tree, tree, index, files, paths);
    var restored := Reinstated(tree, paths, files);
    if before == tree {
      assert paths == {};
      assert restored == files;
    }
    forall p | p in restored ensures p in tree || ignored(p) {
      assert p in tree || p in Hidden(ignored, index, files);
    }
  }

  // ---------------------------------------------------------- the status parser

  /** `git status -z`: each record is `XY path`; a rename or copy is followed by its origin. */
  predicate TwoPaths(code: string) {
    'R' in code || 'C' in code
  }

  function ParseFrom(records: seq<string>, i: nat, paths: map<Path, string>): map<Path, string>
    decreases |records| - i
  {
    if i >= |records| then paths
    else if |records[i]| < 4 then ParseFrom(records, i + 1, paths)
    else
      var code := records[i][..2];
      var here := paths[records[i][3..] := code];
      if !TwoPaths(code) then ParseFrom(records, i + 1, here)
      else ParseFrom(records, i + 2, if i + 1 < |records| then here[records[i + 1] := code] else here)
  }

  function StatusEntries(records: seq<string>): map<Path, string> {
    ParseFrom(records, 0, map[])
  }

  method ParseStatus(records: seq<string>) returns (paths: map<Path, string>)
    ensures paths == StatusEntries(records)
  {
    paths := map[];
    var index := 0;
    while index < |records|
      invariant ParseFrom(records, index, paths) == StatusEntries(records)
      decreases |records| - index
    {
      var record := records[index];
      if |record| >= 4 {
        paths := paths[record[3..] := record[..2]];
        if TwoPaths(record[..2]) {
          index := index + 1;
          if index < |records| {
            paths := paths[records[index] := record[..2]];
          }
        }
      }
      index := index + 1;
    }
  }

  function StatusChangedPaths(before: seq<string>, after: seq<string>): set<Path> {
    var b, a := StatusEntries(before), StatusEntries(after);
    set p | p in b.Keys + a.Keys && !(p in b && p in a && b[p] == a[p])
  }

  /** One entry of the status, as Git reports it. */
  datatype StatusEntry = Plain(code: string, path: Path) | Renamed(code: string, path: Path, origin: Path)

  predicate WellFormedEntry(e: StatusEntry) {
    && |e.code| == 2 && e.path != ""
    && (e.Renamed? <==> e.code[0] == 'R' || e.code[0] == 'C' || e.code[1] == 'R' || e.code[1] == 'C')
  }

  function Render(entries: seq<StatusEntry>): seq<string> {
    if entries == [] then []
    else
      var e := entries[0];
      (if e.Plain? then [e.code + " " + e.path] else [e.code + " " + e.path, e.origin]) + Render(entries[1..])
  }

  function Recorded(entries: seq<StatusEntry>, paths: map<Path, string>): map<Path, string> {
    if entries == [] then paths
    else
      var e := entries[0];
      var here := paths[e.path := e.code];
      Recorded(entries[1..], if e.Plain? then here else here[e.origin := e.code])
  }

  /** Reading one entry off the records. */
  lemma ParseOne(records: seq<string>, i: nat, paths: map<Path, string>, e: StatusEntry)
    requires WellFormedEntry(e) && i < |records| && records[i] == e.code + " " + e.path
    requires e.Renamed? ==> i + 1 < |records| && records[i + 1] == e.origin
    ensures ParseFrom(records, i, paths) ==
            if e.Plain? then ParseFrom(records, i + 1, paths[e.path := e.code])
            else ParseFrom(records, i + 2, paths[e.path := e.code][e.origin := e.code])
  {
    assert records[i][..2] == e.code && records[i][3..] == e.path;
  }

  /** Parsing undoes rendering: an origin is never read as a record, whatever its name looks like. */
  lemma {:induction false} ParseUndoesRender(done: seq<string>, entries: seq<StatusEntry>, paths: map<Path, string>)
    requires forall i :: 0 <= i < |entries| ==> WellFormedEntry(entries[i])
    ensures ParseFrom(done + Render(entries), |done|, paths) == Recorded(entries, paths)
    decreases |entries|
  {
    if entries == [] {
      assert done + Render(entries) == done;
    } else {
      var e := entries[0];
      var here := if e.Plain? then [e.code + " " + e.path] else [e.code + " " + e.path, e.origin];
      var rest := Render(entries[1..]);
      assert done + Render(entries) == (done + here) + rest;
      ParseOne((done + here) + rest, |done|, paths, e);
      ParseUndoesRender(done + here, entries[1..],
                        if e.Plain? then paths[e.path := e.code] else paths[e.path := e.code][e.origin := e.code]);
    }
  }

  // ---------------------------------------------------------------- snapshots

  /** What the harness remembers of a repository before a process starts: who is on what, and both trees. */
  datatype Snapshot = Snapshot(
    head: Sha,
    headRef: Option<Ref>,
    indexTree: Tree,
    candidateTree: Tree,
    status: seq<string>,
    branches: set<Ref>,
    worktrees: set<string>)

  predicate OwnershipMatches(before: Snapshot, after: Snapshot) {
    && before.head == after.head
    && before.headRef == after.headRef
    && before.branches == after.branches
    && before.worktrees == after.worktrees
  }

  /** The paths on which two snapshots differ in any way. */
  function ChangedPaths(before: Snapshot, after: Snapshot): set<Path> {
    DiffPaths(before.indexTree, after.indexTree)
    + DiffPaths(before.candidateTree, after.candidateTree)
    + StatusChangedPaths(before.status, after.status)
  }

  /** Everything refs-related an untrusted worker may not change. */
  datatype Ownership = Ownership(headRef: Option<Ref>, head: Sha, branches: set<Ref>, worktrees: set<string>,
                                 refs: map<Ref, Sha>)

  function BranchesOf(refs: map<Ref, Sha>): set<Ref> {
    set r | r in refs && r.Branch?
  }

  predicate UnstagedLine(line: string) {
    |line| < 2 || line[1] != ' ' || line[..2] == "??"
  }

  /** The commit HEAD names, if there is one. */
  function HeadOf(commits: Graph, refs: map<Ref, Sha>, head: Head): Option<Sha> {
    match head
    case Detached(c) => if c in commits then Some(c) else None
    case OnBranch(r) => if r in refs && refs[r] in commits then Some(refs[r]) else None
  }

  /** The ref HEAD is on. */
  function RefOf(head: Head): Option<Ref> {
    if head.OnBranch? then Some(head.ref) else None
  }

  class Repository {
    const guard: NameGuard
    const ignored: Path -> bool
    const statusRecords: (Tree, Tree, Tree) -> seq<string>
    const statusLines: (Tree, Tree, Tree) -> seq<string>

    var commits: Graph
    var refs: map<Ref, Sha>
    var head: Head
    var index: Tree
    var files: Tree
    // The other registered worktrees, with the branch each has checked out.
    var worktrees: map<string, Option<Ref>>

    constructor (guard: NameGuard, ignored: Path -> bool, statusRecords: (Tree, Tree, Tree) -> seq<string>,
                 statusLines: (Tree, Tree, Tree) -> seq<string>,
                 commits: Graph, refs: map<Ref, Sha>, head: Head, index: Tree, files: Tree)
      ensures this.guard == guard && this.ignored == ignored && this.statusRecords == statusRecords
        && this.statusLines == statusLines
      ensures this.commits == commits && this.refs == refs && this.head == head
      ensures this.index == index && this.files == files && worktrees == map[]
    {
      this.guard, this.ignored, this.statusRecords, this.statusLines := guard, ignored, statusRecords, statusLines;
      this.commits, this.refs, this.head := commits, refs, head;
      this.index, this.files, this.worktrees := index, files, map[];
    }

    /**
     What Git promises about its status: nothing to say when all three trees agree, and no
     unstaged line when index and candidate agree.
     */
    ghost predicate StatusLaws() {
      && (forall h :: statusRecords(h, h, h) == [])
      && (forall h, t, i :: 0 <= i < |statusLines(h, t, t)| ==> !UnstagedLine(statusLines(h, t, t)[i]))
    }

    function CurrentHead(): Option<Sha>
      reads this
    {
      HeadOf(commits, refs, head)
    }

    function SymbolicHead(): Option<Ref>
      reads this
    {
      RefOf(head)
    }

    function Branches(): set<Ref>
      reads this
    {
      BranchesOf(refs)
    }

    function Candidate(): Tree
      reads this
    {
      CandidateTree(ignored, index, files)
    }

    function TakeSnapshot(): Option<Snapshot>
      reads this
    {
      match CurrentHead()
      case None => None
      case Some(h) =>
        Some(Snapshot(h, SymbolicHead(), index, Candidate(), statusRecords(commits[h].tree, index, Candidate()),
            Branches(), worktrees.Keys))
    }

    /** `state` is a snapshot some index and worktree could have on its recorded HEAD. */
    ghost predicate Realizable(state: Snapshot)
      reads this
    {
      && state.head in commits
      && state.status == statusRecords(commits[state.head].tree, state.indexTree, state.candidateTree)
      && forall p :: p in state.candidateTree ==> p in state.indexTree || !ignored(p)
    }

    lemma SnapshotsAreRealizable()
      ensures TakeSnapshot().Some? ==> Realizable(TakeSnapshot().value)
    {
    }

    /** HEAD names a commit exactly when it, or the branch it is on, is at a known one. */
    lemma HeadNamesExactlyWhen(c: Sha)
      ensures CurrentHead() == Some(c) <==>
        c in commits && (head == Detached(c) || exists r :: r in refs && refs[r] == c && head == OnBranch(r))
      ensures SymbolicHead() == None <==> head.Detached?
    {
    }

    function TakeOwnership(): Option<Ownership>
      reads this
    {
      match CurrentHead()
      case None => None
      case Some(h) => Some(Ownership(SymbolicHead(), h, Branches(), worktrees.Keys, refs))
    }

    // ------------------------------------------------------------ Git commands

    method ReadTree(tree: Tree)
      modifies this`index
      ensures index == tree
    {
      index := tree;
    }

    method StageAll()
      modifies this`index
      ensures index == old(Candidate())
    {
      index := Candidate();
    }

    /** Unlink the given paths, one by one, each behind the guard. */
    method Unlink(absent: set<Path>) returns (ok: bool)
      modifies this`files
      ensures ok <==> forall p :: p in absent ==> guard.safe(p)
      ensures ok ==> files == old(files) - absent
      ensures !ok ==> UnlinkedSome(guard, absent, old(files), files)
    {
      var toRemove := absent;
      while toRemove != {}
        invariant toRemove <= absent && forall p :: p in absent - toRemove ==> guard.safe(p)
        invariant files == old(files) - (absent - toRemove)
        decreases |toRemove|
      {
        var relative :| relative in toRemove;
        if !guard.safe(relative) {
          assert absent - toRemove <= absent;
          return false;
        }
        files := files - {relative};
        assert old(files) - (absent - toRemove) - {relative} == old(files) - (absent - (toRemove - {relative}));
        toRemove := toRemove - {relative};
      }
      assert absent - {} == absent;
      return true;
    }

    /** `git restore --worktree --source=tree -- paths`, for the paths the tree has. */
    method WriteFromTree(tree: Tree, paths: set<Path>)
      modifies this`files
      ensures files == old(files) + map p | p in tree && p in paths :: tree[p]
    {
      files := files + map p | p in tree && p in paths :: tree[p];
    }

    /** List the tree, write the paths it has and unlink those it lacks; a refusing guard stops halfway. */
    method RestoreWorktree(tree: Tree, paths: set<Path>) returns (ok: bool)
      modifies this`files
      ensures ok <==> CanOverwrite(guard, tree, paths)
      ensures ok ==> files == Reinstated(tree, paths, old(files))
      ensures !ok ==> LeftHalfway(guard, tree, paths, old(files), files)
    {
      ReinstatedInTwoSteps(tree, paths, files);
      if paths == {} {
        return true;
      }
      if exists p :: p in tree && !guard.listed(p) {
        return false;
      }
      WriteFromTree(tree, paths);
      ok := Unlink(set p | p in paths && p !in tree);
    }

    /** `git clean -fd`: remove what is neither tracked nor ignored. */
    method Clean()
      modifies this`files
      ensures files == Cleaned(ignored, index, old(files))
    {
      files := Cleaned(ignored, index, files);
    }

    // ------------------------------------------------------ harness operations

    /** Put the index back, then overwrite the given paths with their state in the candidate. */
    method Reinstate(target: Tree, candidate: Tree, paths: set<Path>) returns (ok: bool)
      modifies this`index, this`files
      ensures index == target
      ensures ok <==> CanOverwrite(guard, candidate, paths)
      ensures ok && CoversDiff(ignored, target, candidate, old(index), old(files), paths) ==>
        Candidate() == candidate && files == candidate + (Hidden(ignored, old(index), old(files)) - paths)
      ensures !ok ==> LeftHalfway(guard, candidate, paths, old(files), files)
    {
      ReadTree(target);
      ok := RestoreWorktree(candidate, paths);
      if ok && CoversDiff(ignored, target, candidate, old(index), old(files), paths) {
        DiffRestoresCandidate(ignored, target, candidate, old(index), old(files), paths);
        DiffKeepsHiddenFiles(ignored, target, candidate, old(index), old(files), paths);
      }
    }

    /**
     Make the index and the files those of `tree`; the index is left alone when the
     candidate already is `tree`, and nothing is cleaned after a refusal.
     */
    method ResetCandidate(tree: Tree) returns (ok: bool)
      modifies this`index, this`files
      ensures ok <==> CanOverwrite(guard, tree, DiffPaths(tree, old(Candidate())))
      ensures ok && (old(Candidate()) != tree || old(index) == tree) ==>
        && index == tree && Candidate() == tree
        && files == tree + (Hidden(ignored, old(index), old(files)) - DiffPaths(tree, old(Candidate())))
      ensures old(Candidate()) == tree && old(index) != tree ==>
        ok && index == old(index) && files == Cleaned(ignored, index, old(files))
      ensures !ok ==>
        && old(Candidate()) != tree && index == tree
        && LeftHalfway(guard, tree, DiffPaths(tree, old(Candidate())), old(files), files)
    {
      var before := Candidate();
      if before != tree {
        ReadTree(tree);
        ok := RestoreWorktree(tree, DiffPaths(tree, before));
        if !ok {
          return;
        }
      }
      ok := true;
      Clean();
      if before != tree || old(index) == tree {
        RewindRecreates(ignored, tree, old(index), old(files));
      }
    }

    /**
     Restore the files and the index to a snapshot, then prove the whole snapshot.
     For a real snapshot the proof never fails: the rollback is refused only for a
     changed ownership or an unreadable HEAD, before anything is touched, and for a
     name the guard or the tree listing refuses, after the index was put back.
     */
    method RestoreCandidateState(state: Snapshot) returns (r: Result<Snapshot, GitError>)
      modifies this`index, this`files
      ensures r.Success? ==> r.value == state && TakeSnapshot() == Some(state)
      ensures r == Failure(HeadUnreadable) <==> old(TakeSnapshot()).None?
      ensures r == Failure(OwnershipChanged) <==>
        old(TakeSnapshot()).Some? && !OwnershipMatches(state, old(TakeSnapshot()).value)
      ensures r == Failure(UnsafeName) <==>
        && old(TakeSnapshot()).Some? && OwnershipMatches(state, old(TakeSnapshot()).value)
        && !CanOverwrite(guard, state.candidateTree, ChangedPaths(state, old(TakeSnapshot()).value))
      ensures Realizable(state) ==> r != Failure(NotRestored) && r != Failure(NotOnBranch)
      ensures Realizable(state) ==>
        (r.Success? <==>
          && old(TakeSnapshot()).Some? && OwnershipMatches(state, old(TakeSnapshot()).value)
          && CanOverwrite(guard, state.candidateTree, ChangedPaths(state, old(TakeSnapshot()).value)))
      ensures r.Success? && Realizable(state) ==>
        files == RestoredFiles(ignored, state, old(TakeSnapshot()).value, old(index), old(files))
      ensures r == Failure(HeadUnreadable) || r == Failure(OwnershipChanged) ==>
        index == old(index) && files == old(files)
      ensures r == Failure(UnsafeName) ==>
        && index == state.indexTree
        && LeftHalfway(guard, state.candidateTree, ChangedPaths(state, old(TakeSnapshot()).value), old(files), files)
    {
      var current := TakeSnapshot();
      if current.None? {
        return Failure(HeadUnreadable);
      }
      if !OwnershipMatches(state, current.value) {
        return Failure(OwnershipChanged);
      }
      var before := ParseStatus(state.status);
      var after := ParseStatus(current.value.status);
      var paths := DiffPaths(state.indexTree, current.value.indexTree)
                   + DiffPaths(state.candidateTree, current.value.candidateTree)
                   + set p | p in before.Keys + after.Keys && !(p in before && p in after && before[p] == after[p]);
      assert paths == ChangedPaths(state, current.value);
      if Realizable(state) {
        CoverageOfChangedPaths(state, current.value, ignored, files);
      }
      var overwritten := Reinstate(state.indexTree, state.candidateTree, paths);
      if !overwritten {
        return Failure(UnsafeName);
      }
      var restored := TakeSnapshot();
      if restored != Some(state) {
        return Failure(NotRestored);
      }
      return Success(state);
    }

    /**
     Move the branch, the index and the files back to one accepted commit.  The
     index is only reset when the files differ from the commit, so the rewind is
     refused when the files already equal it under another index, and for a name
     the guard or the tree listing refuses.  The branch has then already moved.
     */
    method RewindWorktree(commit: Sha) returns (r: Result<Tree, GitError>)
      requires StatusLaws()
      modifies this`refs, this`index, this`files
      ensures r == Failure(NotRestored) || r == Failure(UnsafeName) ==> head.OnBranch? && commit in commits
      ensures r.Success? <==>
        && head.OnBranch? && commit in commits
        && (old(Candidate()) != commits[commit].tree || old(index) == commits[commit].tree)
        && CanOverwrite(guard, commits[commit].tree, DiffPaths(commits[commit].tree, old(Candidate())))
      ensures r == Failure(UnsafeName) <==>
        && head.OnBranch? && commit in commits
        && !CanOverwrite(guard, commits[commit].tree, DiffPaths(commits[commit].tree, old(Candidate())))
      ensures r.Success? ==>
        && r.value == commits[commit].tree
        && refs == old(refs)[head.ref := commit]
        && index == commits[commit].tree
        && Candidate() == commits[commit].tree
        && files == commits[commit].tree
                    + (Hidden(ignored, old(index), old(files)) - DiffPaths(commits[commit].tree, old(Candidate())))
      ensures r.Failure? && (head.Detached? || commit !in commits) ==>
        refs == old(refs) && index == old(index) && files == old(files)
      // The refused rewind has already moved the branch and dropped the files its stale index does not track,
      ensures r == Failure(NotRestored) ==>
        refs == old(refs)[head.ref := commit] && index == old(index) && files == Cleaned(ignored, index, old(files))
      // or reset the index and unlinked some files.
      ensures r == Failure(UnsafeName) ==>
        && refs == old(refs)[head.ref := commit] && index == commits[commit].tree
        && LeftHalfway(
             guard, commits[commit].tree, DiffPaths(commits[commit].tree, old(Candidate())), old(files), files)
    {
      if head.Detached? {
        return Failure(NotOnBranch);
      }
      if commit !in commits {
        return Failure(UnknownCommit);
      }
      var tree := commits[commit].tree;
      refs := refs[head.ref := commit];
      var reset := ResetCandidate(tree);
      if !reset {
        return Failure(UnsafeName);
      }
      if CurrentHead() != Some(commit) || Candidate() != tree || index != tree
          || statusRecords(tree, index, Candidate()) != [] {
        return Failure(NotRestored);
      }
      return Success(tree);
    }

    /**
     Commit exactly `tree` on top of `parent`.  The object may be created even
     when the compare-and-swap of HEAD is refused, but no ref then moves.
     */
    method CommitTree(tree: Tree, parent: Sha, id: Sha) returns (r: Result<Sha, GitError>)
      requires id in commits ==> commits[id].parents == [parent] && commits[id].tree == tree
      modifies this`commits, this`refs, this`head
      ensures r.Success? <==>
        && parent in old(commits) && old(commits)[parent].tree != tree && old(CurrentHead()) == Some(parent)
      ensures r.Success? ==>
        && r.value == id
        && commits == WithCommit(old(commits), parent, id, tree)
        && CurrentHead() == Some(id)
        && SymbolicHead() == old(SymbolicHead())
        && refs == (if old(head).OnBranch? then old(refs)[old(head).ref := id] else old(refs))
      ensures r.Failure? ==> refs == old(refs) && head == old(head)
      ensures forall c :: c in old(commits) ==> c in commits && commits[c] == old(commits)[c]
    {
      if parent !in commits {
        return Failure(UnknownCommit);
      }
      if commits[parent].tree == tree {
        return Failure(NothingToCommit);
      }
      var current := CurrentHead();
      commits := WithCommit(commits, parent, id, tree);
      if current != Some(parent) {
        return Failure(HeadMoved);
      }
      match head {
        case OnBranch(r) => refs := refs[r := id];
        case Detached(_) => head := Detached(id);
      }
      return Success(id);
    }

    /**
     The gate in front of every accepted commit, over an arbitrary security scan
     of the staged change.  Passing it means the tree is exactly what the index
     and the files hold, on the expected parent, inside the declared scope.
     */
    method CommitSafetyGate(tree: Tree, parent: Sha, scope: set<Path>, verified: bool, securityPassed: bool,
                            scan: (Tree, Tree) -> seq<string>)
      returns (changed: Option<set<Path>>)
      requires StatusLaws()
      ensures changed.Some? <==>
        && verified && securityPassed
        && CurrentHead() == Some(parent) && index == tree && Candidate() == tree
        && WithinScope(commits[parent].tree, tree, scope)
        && scan(commits[parent].tree, tree) == []
      ensures changed.Some? ==>
        && changed.value == DiffPaths(commits[parent].tree, tree)
        && (scope != {} ==> changed.value <= scope)
    {
      if !verified || !securityPassed || CurrentHead() != Some(parent) || index != tree || Candidate() != tree {
        return None;
      }
      var status := statusLines(commits[parent].tree, index, Candidate());
      if exists i :: 0 <= i < |status| && UnstagedLine(status[i]) {
        assert false;
      }
      var paths := DiffPaths(commits[parent].tree, tree);
      if scope != {} && !(paths <= scope) {
        return None;
      }
      if scan(commits[parent].tree, tree) != [] {
        return None;
      }
      return Some(paths);
    }
  }

  /** The computed paths cover everything a process changed. */
  lemma CoverageOfChangedPaths(state: Snapshot, current: Snapshot, ignored: Path -> bool, files: Tree)
    requires forall p :: p in state.candidateTree ==> p in state.indexTree || !ignored(p)
    requires current.candidateTree == CandidateTree(ignored, current.indexTree, files)
    ensures CoversDiff(ignored, state.indexTree, state.candidateTree, current.indexTree, files,
      ChangedPaths(state, current))
  {
    forall p | p in state.indexTree && p !in ChangedPaths(state, current) ensures p in current.indexTree {
      assert p !in DiffPaths(state.indexTree, current.indexTree);
    }
  }

  // -------------------------------------------------------- what cannot be undone

  /** One untracked file with a name the guard refuses, such as `a:b`, keeps the whole change from being undone. */
  lemma UnsafeNewFileBlocksRestore(guard: NameGuard, state: Snapshot, current: Snapshot, path: Path)
    requires path in current.candidateTree && path !in state.candidateTree && !guard.safe(path)
    ensures !CanOverwrite(guard, state.candidateTree, ChangedPaths(state, current))
  {
    assert path in DiffPaths(state.candidateTree, current.candidateTree);
  }

  // ---------------------------------------------------------- what is not kept

  /** The files a restore to `state` leaves, when the process left this snapshot, index and files. */
  function RestoredFiles(ignored: Path -> bool, state: Snapshot, current: Snapshot, index: Tree, files: Tree): Tree {
    state.candidateTree + (Hidden(ignored, index, files) - ChangedPaths(state, current))
  }

  /**
   A hidden file is the one thing a rollback may lose although the whole snapshot
   comes back.  One that the process left as it was on disk survives exactly when
   it was not force-added and its status did not change.
   */
  lemma HiddenFileSurvivesExactlyWhen(ignored: Path -> bool, state: Snapshot, files: Tree, current: Snapshot,
                                      ended: Tree, path: Path)
    requires state.candidateTree == CandidateTree(ignored, state.indexTree, files)
    requires current.candidateTree == CandidateTree(ignored, current.indexTree, ended)
    requires path in Hidden(ignored, state.indexTree, files) && path in ended && ended[path] == files[path]
    ensures var restored := RestoredFiles(ignored, state, current, current.indexTree, ended);
            path in restored && restored[path] == files[path] <==>
            path !in current.indexTree && path !in StatusChangedPaths(state.status, current.status)
  {
    assert path in current.indexTree <==> path in DiffPaths(state.indexTree, current.indexTree);
  }
}
