# MetaHarness model

A model of the Git-controlling core of MetaHarness, and proofs about whole runs of it.

MetaHarness turns a specification into a controlled Git run: a planner writes a
plan, an untrusted agent carries it out in an isolated worktree, deterministic
checks are run and judged against what the base commit already answered, accepted
steps become a linear chain of commits, and the approved tip is published by
fast-forwarding the base branch. The harness trusts neither the agent nor the
check processes; it snapshots, compares, restores only what differs and proves the
result. Its own state lives in two files that several processes write.

## How the model is built

| module | what it models |
|---|---|
| `CommitGraph` | commit objects, the accepted chain and its records, the scope of a chain |
| `Repository` | one repository with its worktree: refs, HEAD, index and files as fields that Git commands update |
| `StepAcceptance` | a run of gated, committed and recorded steps beside arbitrary other changes |
| `AttemptTransaction` | the transaction around one untrusted attempt |
| `WorkerBoundary` | the audit of an attempt's ref changes and their recovery |
| `Checks`, `CheckRunner` | check selection, and the retry-and-restore loop against arbitrary processes |
| `Evidence`, `Baseline`, `Gate` | the failure list, the second notion of passing, the baseline cache, and the gate they form |
| `RunMachine`, `StateStore`, `Resume` | the run state machine, its locked store beside the unlocked checkpoint, the resume gate |
| `Utf8`, `PromptBudget` | byte-bounded text and the budgeted prompt builder |
| `Excerpts`, `ProgressLog` | the in-place excerpt merger and the self-repairing log |
| `Publication` | the compare-and-swap and push protocol under any interleaving |

Trees are flat maps from path to content. Digests are the values they are taken of.
Commits carry Git's generation number, which makes the graph acyclic. A process is
an arbitrary change of the whole repository. A run of several processes is a
sequence of atomic moves in any order, with crashes and outside writers as moves.
Code that updates things in place is a class or a loop, proved against a function
or a relation; the laws are lemmas about those.

## Where the code does less than one would expect

Each of these is stated as an if-and-only-if or as a concrete case.

- The guard in front of every unlinked path reads it the Windows way as well. A
  process that leaves an untracked file named like `a:b` makes its own change
  impossible to undo: the restore fails after the index was put back, the rollback
  of an attempt before anything is restored (`GuardRefusesDrives`,
  `UnsafeNewFileBlocksRestore`, `RestoreCandidateState`, `RollBack`,
  `RunContained`). A tree with a backslash in a name cannot be listed, so no
  candidate restore and no rewind to it that has a path to change can succeed
  (`ListingRefusesBackslashes`); the rollback of an attempt asks for no listing.
- A rollback deletes an ignored file that the process added to the index, and the
  restored snapshot still compares equal (`HiddenFileSurvivesExactlyWhen`).
- A rewind is refused when the files already equal the commit under another index, or
  for a name as above; by then it has moved the branch, and cleaned untracked files
  or reset the index (`RewindWorktree`).
- The audit ignores the worktree list, against its docstring
  (`AuditIgnoresWorktrees`), and does not refuse a HEAD detached at the base
  (`DetachedAtBaseIsNotFatal`). Recovery is refused when HEAD left the run branch
  and the run branch itself moved (`RecoverWorkerGitState`).
- An attempt transaction given another base than the HEAD it began on may be refused
  for its status after everything was restored (`Discard`).
- The remote base may be fast-forwarded from another ancestor than the run's base,
  or created anew, when the tracking ref is stale (`RemoteMovesFromBaseExactlyWhen`).
- The orchestration publishes with the tip's own parent and without the records, which
  admits chains of one or two commits only: a run of three or more accepted steps
  validates as a chain and is then refused (`RunIsPublishedExactlyWhen`).
- An empty scope restricts nothing, and one of them is enough to leave the union of
  all scopes (`ScopesBoundChangesExactlyWhen`); an empty record list is not matched
  (`ValidateLinearCommitChain`).
- Without explicit IDs the gate can pass while a selected check it counts as
  required is unanswered (`GateImpliesRequiredExactlyWhen`).
- A transition does not read back as computed when an old failure reason is still
  recorded, or the checkpoint names another phase (`TransitionReadsBackExactlyWhen`).
- The progress log reads back 20 000 times 2 048 bytes at most; a line that ends
  exactly there hides the lines after it (`SelfWrittenExactlyWhen`,
  `SyncIsIdempotentExactlyWhen`). Lines of at most 2 048 bytes never do that
  (`SmallHistoriesAreSelfWritten`); 626 lines of 64 KiB do (`WideLinesAreRepeated`).
- Collected excerpts may overlap (`IncludeKeepsApartExactlyWhen`,
  `CollectedExcerptsMayOverlap`).

## Model

| member | source | states |
|---|---|---|
| CommitGraph.ValidateLinearCommitChain | MetaHarness/src/metaharness/gitops.py:1403-1462 | Terminates on every acyclic graph; accepts a chain exactly when it is the single-parent path from base to tip, a non-empty record list describes it commit by commit, and the tip has the approved tree. Each of the refusals "not an ancestor", "merge or root", "record" is an if-and-only-if. |
| CommitGraph.WalkToBase | MetaHarness/src/metaharness/gitops.py:1423-1431 | The backward walk returns a path exactly when a single-parent path exists, and returns that one. |
| CommitGraph.MatchRecords | MetaHarness/src/metaharness/gitops.py:1433-1457 | The record loop accepts exactly one record per commit, in order, each agreeing on commit, parent, tree and any recorded tree before. |
| CommitGraph.DescriptionIsUnique | MetaHarness/src/metaharness/gitops.py:1433-1457 | Two records that describe one commit of the chain agree on commit, parent, tree and any tree before that both state. |
| CommitGraph.EitherTreeKeyWillDo | MetaHarness/src/metaharness/gitops.py:1441-1452 | A recorded tree is read from the newer key when it is there, whatever it holds, and otherwise from the older one. |
| CommitGraph.WalkDecidesChains | MetaHarness/src/metaharness/gitops.py:1423-1431 | A walk succeeds if and only if some single-parent path exists, and such a path is unique. |
| CommitGraph.ChainClimbs | MetaHarness/src/metaharness/gitops.py:1423-1431 | A non-empty chain strictly climbs the graph, so its tip is never its base. |
| CommitGraph.ChainIsWalked | MetaHarness/src/metaharness/gitops.py:1423-1431 | Any single-parent path is exactly what the walk returns. |
| CommitGraph.WalkIsChain | MetaHarness/src/metaharness/gitops.py:1423-1431 | What the walk returns is a single-parent path from base to tip. |
| CommitGraph.ChainReaches | MetaHarness/src/metaharness/gitops.py:1391-1400 | A single-parent path makes its base an ancestor of its tip. |
| CommitGraph.GrownHistoriesAreAccepted | MetaHarness/src/metaharness/commit_gate.py:289-330 | Every history grown by committing accepted steps and recording each one, while others add any commits in between, validates against its own records and its own last tree. |
| CommitGraph.GrownHistoriesMatch | MetaHarness/src/metaharness/commit_gate.py:289-330 | The commits of a grown history are the single-parent path of its steps and its records describe them in order; the graph stays acyclic. |
| CommitGraph.OthersChangeNothing | MetaHarness/src/metaharness/gitops.py:1403-1462 | Commits that others add leave the chain and its records as they were. |
| CommitGraph.ExtendAccepted | MetaHarness/src/metaharness/gitops.py:1199-1217 | One more accepted step keeps the chain, its records and the graph well formed, also when the commit object already existed. |
| CommitGraph.CumulativeScope | MetaHarness/src/metaharness/commit_gate.py:245-253 | If every commit of a chain of any length passed its gate with a non-empty scope, the difference from base to tip lies inside the union of the scopes. |
| CommitGraph.GrownHistoriesAreGated | MetaHarness/src/metaharness/commit_gate.py:245-253 | Every commit of a grown history differs from its parent only inside its own step's scope. |
| CommitGraph.GrownHistoriesStayInScope | MetaHarness/src/metaharness/commit_gate.py:245-253 | The cumulative change of a history grown under non-empty scopes lies inside their union. |
| CommitGraph.DiffsCompose | MetaHarness/src/metaharness/gitops.py:1077-1104 | A difference across two steps is covered by the two step differences. |
| CommitGraph.EmptyScopeAdmitsEveryPath | MetaHarness/src/metaharness/commit_gate.py:246-248 | If one scope is empty, wherever it stands, some history of accepted steps under exactly these scopes, each of them changing something, changes any given path; its commits are a chain gated under the same scopes. |
| CommitGraph.ScopesBoundChangesExactlyWhen | MetaHarness/src/metaharness/commit_gate.py:245-253 | For every list of scopes: all histories grown under them, and all chains gated under them, keep their cumulative change inside the union if and only if no scope is empty. |
| Repository.DiffRestoresCandidate | MetaHarness/src/metaharness/gitops.py:962-994 | With the index back, overwriting only the paths that differ recreates the whole candidate, whatever the process left. |
| Repository.DiffKeepsHiddenFiles | MetaHarness/src/metaharness/gitops.py:962-994 | Besides the candidate, exactly the ignored untracked files outside the restored paths survive. |
| Repository.RewindRecreates | MetaHarness/src/metaharness/gitops.py:1655-1702 | The files after a rewind, including which ignored files survive, and that the clean removes nothing more. |
| Repository.CoverageOfChangedPaths | MetaHarness/src/metaharness/gitops.py:940-959 | The computed changed paths cover every index entry and file the process changed. |
| Repository.HasDotDotExactlyWhen | MetaHarness/src/metaharness/gitops.py:1719-1720 | The test for parent references finds exactly the names with such a component between slashes or backslashes. |
| Repository.OrdinaryNamesAreAccepted | MetaHarness/src/metaharness/gitops.py:1705-1721 | On names without colons and backslashes the guard and the listing agree, and refuse exactly what is empty, rooted, holds a NUL or a parent reference. |
| Repository.OrdinaryNamesCanBeOverwritten | MetaHarness/src/metaharness/gitops.py:976-990 | Under the guard of the harness such names can always be put back. |
| Repository.UnlistedNameBlocksRestore | MetaHarness/src/metaharness/gitops.py:569-599 | One name of the tree that is not listed blocks every overwriting from it. |
| Repository.GuardRefusesDrives | MetaHarness/src/metaharness/gitops.py:1705-1721 | Of the names that trees list, the guard refuses to unlink exactly those with a colon in the second place. |
| Repository.DrivesAreListed | MetaHarness/src/metaharness/gitops.py:569-599 | There are such names: a letter, a colon and any letters, as `a:b`. |
| Repository.ListingRefusesBackslashes | MetaHarness/src/metaharness/gitops.py:569-599 | A plain name with a backslash in it may be unlinked, but no tree that has it can be listed. |
| Repository.UnsafeNewFileBlocksRestore | MetaHarness/src/metaharness/gitops.py:984-986 | One new file with an unsafe name makes the whole restore to the snapshot impossible. |
| Repository.HiddenFileSurvivesExactlyWhen | MetaHarness/src/metaharness/gitops.py:962-994 | An ignored untracked file that the process left as it was survives a restore to the snapshot if and only if it was not added to the index and its status did not change; otherwise it is lost although the whole snapshot comes back. |
| Repository.ParseStatus | MetaHarness/src/metaharness/gitops.py:891-903 | The index loop computes the parsed status, with a rename or copy consuming the record after it. |
| Repository.ParseUndoesRender | MetaHarness/src/metaharness/gitops.py:883-911 | For every list of status entries, parsing the NUL-separated records gives back each path with its code; an origin is never read as a record. |
| Repository.Repository.RestoreWorktree | MetaHarness/src/metaharness/gitops.py:976-990 | The given paths are overwritten exactly when they are none, or the tree can be listed and every path to unlink has a safe name; a refusal leaves nothing done, or only some safe names unlinked. |
| Repository.Repository.Unlink | MetaHarness/src/metaharness/gitops.py:985-990 | Unlinking one by one behind the guard removes exactly the given paths, or stops at an unsafe name after some safe ones. |
| Repository.Repository.Reinstate | MetaHarness/src/metaharness/gitops.py:974-990 | Index and candidate are those asked for whenever the given paths cover the difference and can be overwritten; a refusal has already put the index back. |
| Repository.Repository.RestoreCandidateState | MetaHarness/src/metaharness/gitops.py:962-994 | For a real snapshot the exactness check never fires. The restore succeeds exactly when HEAD is readable, ownership unchanged and every name involved accepted, and then the whole snapshot is back; each refusal is an if-and-only-if with the state it leaves. |
| Repository.Repository.ResetCandidate | MetaHarness/src/metaharness/gitops.py:1677-1695 | Index and files become the tree, except that a stale index is left alone when the candidate already equals the tree, and a refused name stops before the clean. |
| Repository.Repository.RewindWorktree | MetaHarness/src/metaharness/gitops.py:1655-1702 | Succeeds exactly on a branch, for a known commit, when the candidate differs from the commit or the index already equals it, and every name involved is accepted; says what each refused rewind has already moved. |
| Repository.Repository.CommitTree | MetaHarness/src/metaharness/gitops.py:1121-1176 | Succeeds exactly when the parent is HEAD and the tree is new; then one ref moved to a commit of exactly that tree and parent. A refusal moves no ref, and no commit is ever replaced. |
| Repository.Repository.CommitSafetyGate | MetaHarness/src/metaharness/commit_gate.py:202-286 | Passes exactly when verification and security passed, HEAD is the parent, index and candidate are the tree, the change is inside a non-empty scope, and the scan is clean; the dirty-status refusal never fires by itself. |
| Repository.Repository.SnapshotsAreRealizable | MetaHarness/src/metaharness/gitops.py:914-926 | Every snapshot taken is one that can be restored. |
| Repository.Repository.HeadNamesExactlyWhen | MetaHarness/src/metaharness/gitops.py:602-616 | HEAD names a commit exactly when it, or the branch it is on, is at a known one. |
| StepAcceptance.AcceptedRun.Accept | MetaHarness/src/metaharness/orchestration/step_execution.py:832-906 | Succeeds exactly when the tree is new and the gate open; then the run is longer by one commit of exactly the gated tree on its old tip, with its record. Otherwise neither the run nor any ref moved. |
| StepAcceptance.AcceptedRun.Commit | MetaHarness/src/metaharness/orchestration/step_execution.py:882-901 | Committing a gated step and recording it is one step of a grown history, also when the object already existed. |
| StepAcceptance.AcceptedRun.Meanwhile | MetaHarness/src/metaharness/orchestration/worker_attempt.py:320-354 | Whatever attempts, checks or others do to index, files, refs, HEAD and worktrees, with any commits added, the run stays well formed. |
| StepAcceptance.AcceptedRun.ValidateRun | MetaHarness/src/metaharness/orchestration/publication.py:453-463 | After any such run the validation before publication never fails and returns exactly its commits; the change from base to tip is inside the union of the non-empty scopes; with one step or more the tip is approved against the records. |
| StepAcceptance.AcceptedRun.RunIsPublishedExactlyWhen | MetaHarness/src/metaharness/orchestration/publication.py:558-564 | A run of accepted steps, published as the orchestration does it, is published exactly when it has one or two steps, and refused otherwise, although its whole chain validates. |
| AttemptTransaction.StagingIsStable | MetaHarness/src/metaharness/attempt_transaction.py:446-463 | Staging an attempt changes neither the tree it records nor the files no snapshot sees. |
| AttemptTransaction.RollbackRecreates | MetaHarness/src/metaharness/attempt_transaction.py:489-509 | Putting back only the changed paths recreates the boundary tree in index and candidate. |
| AttemptTransaction.CleanStatusHasNothingUnstaged | MetaHarness/src/metaharness/attempt_transaction.py:239-246 | A status without unstaged lines passes the unstaged-or-untracked test. |
| AttemptTransaction.StagedFiles | MetaHarness/src/metaharness/gitops.py:846-866 | With everything staged, the files are exactly the candidate and the ignored untracked ones. |
| AttemptTransaction.DoNothing | MetaHarness/src/metaharness/attempt_transaction.py:408-536 | A transaction around an attempt that does nothing is begun and discarded, without a change of index or files. |
| AttemptTransaction.CandidateAttemptTransaction.Begin | MetaHarness/src/metaharness/attempt_transaction.py:408-433 | A transaction begins exactly when HEAD is readable and the candidate fully staged, and records that boundary. |
| AttemptTransaction.CandidateAttemptTransaction.Freeze | MetaHarness/src/metaharness/attempt_transaction.py:446-463 | The attempt is staged exactly, and the reported paths are its difference from the boundary. |
| AttemptTransaction.CandidateAttemptTransaction.RestorePaths | MetaHarness/src/metaharness/gitops.py:1587-1616 | Index and files are overwritten on exactly the given paths if and only if every one of them has a safe name; otherwise nothing is touched. |
| AttemptTransaction.CandidateAttemptTransaction.RollBack | MetaHarness/src/metaharness/attempt_transaction.py:489-509 | The content half of the exactness check never fires; refusal is exactly an unsafe changed name, before anything is restored, a status that no longer applies, or changed ownership. |
| AttemptTransaction.CandidateAttemptTransaction.Discard | MetaHarness/src/metaharness/attempt_transaction.py:524-536 | For every attempt end state: refused untouched exactly when ownership changed; otherwise index, candidate and files are back if every changed name is safe, and the attempt stays staged if not. It succeeds exactly when moreover the recorded status still applies, which it always does for an attempt expected on its starting HEAD. |
| AttemptTransaction.CandidateAttemptTransaction.Abort | MetaHarness/src/metaharness/attempt_transaction.py:511-522 | The exact condition of each refusal (ownership, scope, security, unsafe name or status) and of success; a scope, security or name refusal leaves the attempt staged and untouched. |
| WorkerBoundary.AuditPassesExactlyWhen | MetaHarness/src/metaharness/attempt_transaction.py:108-168 | The audit finds nothing fatal if and only if the ref table is the old one but for new branches and a kept run branch, HEAD is on the run branch, on a new branch or detached at the base, and HEAD moved only forward. |
| WorkerBoundary.NotFatalMeans | MetaHarness/src/metaharness/attempt_transaction.py:108-168 | A verdict that is not fatal fixes the whole ref table up to created branches and the run branch. |
| WorkerBoundary.AuditReports | MetaHarness/src/metaharness/attempt_transaction.py:93-101 | What a verdict that is not fatal reports: worker commits exactly when HEAD left the base, the branch HEAD is on, and nothing to take back exactly when no branch is new and HEAD is at the base, on the run branch or detached. |
| WorkerBoundary.AbsorbableTableIsKept | MetaHarness/src/metaharness/attempt_transaction.py:171-200 | Conversely, for such a table no deletion, remote-tracking or foreign change is reported. |
| WorkerBoundary.ResetSoft | MetaHarness/src/metaharness/gitops.py:1619-1631 | A soft reset moves what HEAD is on and nothing else. |
| WorkerBoundary.CheckoutBranch | MetaHarness/src/metaharness/gitops.py:1634-1641 | Re-attaching between two names of one commit succeeds exactly when no other worktree has the branch, and touches neither index nor files. |
| WorkerBoundary.DeleteRefs | MetaHarness/src/metaharness/attempt_transaction.py:283-284 | The deletion loop removes exactly the created branches. |
| WorkerBoundary.RecoverWorkerGitState | MetaHarness/src/metaharness/attempt_transaction.py:267-302 | After a verdict that is not fatal, recovery either refuses or leaves the whole ref table and HEAD as before the attempt with index and files kept; it succeeds exactly when HEAD stayed on the run branch, or the run branch is at the base and checked out nowhere else. |
| WorkerBoundary.QuietAttemptChangedNothing | MetaHarness/src/metaharness/attempt_transaction.py:214-236 | An attempt that the audit does not refuse and the ownership check accepts changed no ref, HEAD or worktree. |
| WorkerBoundary.OwnershipIntactExactlyWhen | MetaHarness/src/metaharness/attempt_transaction.py:214-236 | The ownership check passes exactly when HEAD, its branch, the branch names and the worktrees are those from before the attempt. |
| WorkerBoundary.AuditIgnoresWorktrees | MetaHarness/src/metaharness/attempt_transaction.py:108-168 | The verdict does not depend on the worktree list, although the docstring says it does. |
| WorkerBoundary.DetachedAtBaseIsNotFatal | MetaHarness/src/metaharness/attempt_transaction.py:138-150 | A HEAD detached at the base commit is not fatal, because it compares equal to an absent adopted branch; the ownership check refuses it. |
| Checks.SelectChecks | MetaHarness/src/metaharness/models.py:1153-1165 | A selection succeeds exactly when the wanted IDs are distinct and known, and then has one catalogue entry per wanted ID in order. |
| Checks.LastDefinitionWins | MetaHarness/src/metaharness/models.py:1153-1164 | Of two definitions of one ID the later one is selected. |
| Checks.SelectedInOrder | MetaHarness/src/metaharness/models.py:1147-1165 | The selection is in the order of the explicit IDs, else of the configured default, else of the required checks of the catalogue. |
| Checks.RequiredIds | MetaHarness/src/metaharness/models.py:1147-1151 | The fallback IDs are exactly those of the required checks. |
| Checks.RequiredIdsOfConcat | MetaHarness/src/metaharness/models.py:1147-1151 | They come in catalogue order: the IDs of a longer catalogue are those of its parts in turn. |
| Checks.SelectedChecksAreDistinct | MetaHarness/src/metaharness/models.py:1160-1161 | A selection never repeats an ID. |
| CheckRunner.KindTellsTheEnd | MetaHarness/src/metaharness/validation.py:448-468 | Each kind of a result, and the verdict of a preflight, against how the process ended; the retry policy is asked exactly for a process that could not start, timed out, was killed, or failed with an outage reported. |
| CheckRunner.TracedResultsMean | MetaHarness/src/metaharness/validation.py:360-475 | For every result list of the runner: a check passed exactly when its last run exited with zero and changed nothing, and a plain failure of an unchanged candidate is final, whatever the policy would grant. |
| CheckRunner.ProcessHost.RunsMean | MetaHarness/src/metaharness/validation.py:360-447 | What the runs that explain a result are: how each process ended, whether it left another index or candidate, and whether that can be undone. |
| CheckRunner.ProcessHost.RunContained | MetaHarness/src/metaharness/attempt_transaction.py:324-365 | Around any process that may leave any index, files, refs and HEAD: the snapshot is back, or it is refused, with one if-and-only-if for each refusal: HEAD unreadable before or after, HEAD, branch names or worktrees changed, a name left that cannot be undone. A mutation is seen exactly when index or candidate differ. |
| CheckRunner.ProcessHost.RunAgain | MetaHarness/src/metaharness/validation.py:360-475 | One turn of the retry loop: it stops, settles or repeats, and what was known of the runs so far stays true with one run more. |
| CheckRunner.ProcessHost.UnsafeNewFileIsNotUndone | MetaHarness/src/metaharness/attempt_transaction.py:337-347 | A run that leaves a new file with an unsafe name cannot be undone, so the rollback fails. |
| CheckRunner.ProcessHost.DriveFileIsNotUndone | MetaHarness/src/metaharness/gitops.py:1705-1721 | Under the guard of the harness, a run that leaves a new file with such a name, as `a:b`, cannot be undone. |
| CheckRunner.ProcessHost.SignaturesTellApart | MetaHarness/src/metaharness/attempt_transaction.py:316-321 | Two runs have one signature exactly when they leave the same index and candidate. |
| CheckRunner.ProcessHost.RunUntilSettled | MetaHarness/src/metaharness/validation.py:360-475 | The retry loop, over the runs as they are: every run that was repeated mutated the candidate or failed for infrastructure, and each of the latter used one yes of the policy; the last run was not repeated because it mutated again, failed or passed plainly, was refused, or found no answer left. Kind, tree, paths and retries of the result follow from those runs. |
| CheckRunner.ProcessHost.RunCheck | MetaHarness/src/metaharness/validation.py:346-506 | One check ends with the candidate as it was and one result that is true of all its runs, with the answers it used, or raises for ownership, an unreadable HEAD or a run that cannot be undone. |
| CheckRunner.ProcessHost.RunPreflight | MetaHarness/src/metaharness/validation.py:526-567 | A preflight runs once, or twice after a mutation; it fails exactly when the last run mutated too or did not answer yes, and raises as a check does. |
| CheckRunner.ProcessHost.RunPreflights | MetaHarness/src/metaharness/validation.py:526-568 | Check by check: no run without a preflight, otherwise the verdict of its runs; the candidate ends as it was. |
| CheckRunner.ReportedOfConcat | MetaHarness/src/metaharness/validation.py:526-568 | The failures reported are those of the verdicts, in their order. |
| CheckRunner.ProcessHost.RunCheckPreflights | MetaHarness/src/metaharness/validation.py:510-568 | The failures are those of the selected checks that have a preflight, in order; a missing working directory raises. |
| CheckRunner.ProcessHost.RunSelected | MetaHarness/src/metaharness/validation.py:340-507 | One result per selected check in order, each with the runs and answers that explain it, those of one check following on those of the one before; a skipped check never runs; the candidate is the one at entry. |
| CheckRunner.ProcessHost.RunChecks | MetaHarness/src/metaharness/validation.py:298-507 | The whole run refuses the selection or a missing working directory before anything runs; otherwise it raises for ownership, HEAD or a run that cannot be undone, never when all runs are harmless, or it returns the candidate and index at entry and one result per check that its own runs and answers explain. |
| Evidence.CollectEvidence | MetaHarness/src/metaharness/evidence.py:541-592 | The evidence loop builds the failures, warnings and cleared checks of the whole selection. |
| Evidence.EvaluateCheck | MetaHarness/src/metaharness/evidence.py:543-579 | One turn of the loop contributes exactly what its result, its configuration and the judge call for. |
| Evidence.FailuresAppear | MetaHarness/src/metaharness/evidence.py:541-592 | The gate passes if and only if no failure came from outside and no check contributed one. |
| Evidence.FailureAppearsExactlyWhen | MetaHarness/src/metaharness/evidence.py:541-579 | Each failure code of a bundle against the results: it was found elsewhere, or some check contributed it by its kind, its exit code and the judge; none is lost. |
| Evidence.WarningAppearsExactlyWhen | MetaHarness/src/metaharness/evidence.py:550-579 | Each warning of a bundle stems from a skip, with its reason, or from a judge that was asked, and none is lost. |
| Evidence.ClearsExactlyWhen | MetaHarness/src/metaharness/evidence.py:563-579 | A check is cleared exactly when it was asked for and failed plainly, and the judge gave no failure. |
| Evidence.FindsItself | MetaHarness/src/metaharness/evidence.py:252-262 | With distinct names a required ID finds its own result and is cleared only by it. |
| Evidence.AnsweredWhen | MetaHarness/src/metaharness/evidence.py:257-273 | A required ID is answered exactly when its check was skipped, passed or was cleared; relates that to the failures it contributed. |
| Evidence.PassedGateAnswersRequired | MetaHarness/src/metaharness/evidence.py:245-274 | A passed gate answers every required check, through skips, recovered mutations, timeouts, infrastructure failures and cleared failures. |
| Evidence.RunnerResultsFit | MetaHarness/src/metaharness/validation.py:485-505 | Every result list the check runner returns has the shape the two notions rely on. |
| Evidence.PassedRunAnswersEveryRequestedId | MetaHarness/src/metaharness/evidence.py:541-592 | End to end with explicit IDs: whatever the processes, skips, retries and judge, a passed gate answers every requested ID. |
| Evidence.RequiredAnswersDecideGate | MetaHarness/src/metaharness/evidence.py:245-274 | Conversely, answered required checks with nothing wrong elsewhere mean a passed gate exactly when no side effect was repeated. |
| Evidence.UnrequiredFailureIsMissed | MetaHarness/src/metaharness/evidence.py:560-563 | Without explicit IDs, a selected check the catalogue does not require can fail while the gate passes and the requirement is unanswered. |
| Evidence.GateImpliesRequiredExactlyWhen | MetaHarness/src/metaharness/evidence.py:560-563 | The implication holds for all results if and only if the IDs were explicit or every selected check is required. |
| Baseline.EntryOf | MetaHarness/src/metaharness/baseline.py:225-229 | The entry of a check is one of its ID, and none exactly when the record has none. |
| Baseline.SlicedEntryWasCaptured | MetaHarness/src/metaharness/baseline.py:234-251 | An entry sliced from a sound record tells what was observed of the very definition that asks for it. |
| Baseline.SliceIsSound | MetaHarness/src/metaharness/baseline.py:234-251 | A slice of a sound record is sound and answers the narrower selection in order. |
| Baseline.CoveringRecordIsSliced | MetaHarness/src/metaharness/baseline.py:234-251 | A sound record that was taken of all the wanted definitions, among others, can always be cut down to them. |
| Baseline.CaptureIsSound | MetaHarness/src/metaharness/baseline.py:424-440 | A fresh or unavailable record answers its own selection, one entry per definition in order, each telling the result it was made from. |
| Baseline.CaptureIsReadBack | MetaHarness/src/metaharness/baseline.py:253-302 | The record written for a selection is read back from its payload. |
| Baseline.BaselineCache.CachedSuperset | MetaHarness/src/metaharness/baseline.py:595-613 | A slice found among the files answers the selection for this base; none is returned only when no file can be sliced. |
| Baseline.BaselineCache.Store | MetaHarness/src/metaharness/baseline.py:615-626 | Storing replaces one file, possibly of another selection with the same digest prefix, and keeps every file sound. |
| Baseline.BaselineCache.Overwrite | MetaHarness/src/metaharness/baseline.py:580-593 | Cache files may be garbled or replaced by any record of captured answers, those another process just captured included, even under a wrong name, without making the cache unsound. |
| Baseline.BaselineCache.EnsureSelected | MetaHarness/src/metaharness/baseline.py:629-673 | Exact hit, superset slice or fresh capture: every returned entry tells a result, or the want of one, observed for this base and this definition, in order. Nothing is captured or written when some readable file of this base was taken of all the definitions; an exact hit is returned as it is, and a capture is found again. |
| Baseline.BaselineCache.Ensure | MetaHarness/src/metaharness/baseline.py:629-673 | The same for the wanted IDs of a catalogue, over any history of files; an invalid selection changes nothing. |
| Baseline.OnlyNewFailuresBlock | MetaHarness/src/metaharness/baseline.py:466-521 | A failing candidate is a regression exactly when it has no baseline, or an explained one that does not already name every failure. |
| Baseline.FailureIsExcusedExactlyWhen | MetaHarness/src/metaharness/baseline.py:343-371 | From result to result: a nonzero exit is let through if and only if on the base the check was skipped, missing or could not start, or failed unexplained, or failed and both name their failures and the candidate names no other. A base that passed excuses nothing. |
| Baseline.PassIsNeverBlocked | MetaHarness/src/metaharness/baseline.py:466-483 | A passed candidate check is never a regression, and an improvement exactly when the base failed. |
| Baseline.EntryMeans | MetaHarness/src/metaharness/baseline.py:343-359 | What an entry records of a result: which status, and failure IDs only for a failure whose output was understood. |
| Baseline.FingerprintsTellApart | MetaHarness/src/metaharness/baseline.py:305-325 | Two definitions are one to the cache exactly when they differ in nothing but their description. |
| Baseline.RepeatedIdsAreRefused | MetaHarness/src/metaharness/baseline.py:253-302 | A stored payload is read exactly when no check ID occurs twice in it. |
| Gate.EntryAtItsPosition | MetaHarness/src/metaharness/baseline.py:225-229 | With distinct IDs the entry of a check is the one at its own position. |
| Gate.OneCheckLetsThrough | MetaHarness/src/metaharness/orchestration/gates.py:446-471 | A check contributes no failure exactly when it passed, was skipped, or failed with a nonzero exit that what was observed on the base excuses. |
| Gate.GateOpensExactlyWhen | MetaHarness/src/metaharness/orchestration/gates.py:438-487 | The gate opens if and only if nothing failed elsewhere and every selected check passed, was skipped, or failed in a way that the base result of its own definition excuses, told on the results themselves. |
| Gate.GateAfterCaptureOpensExactlyWhen | MetaHarness/src/metaharness/orchestration/gates.py:438-487 | After a fresh capture the condition compares the two results of each check, and nothing else. |
| Gate.OpenGateHasNoNewFailure | MetaHarness/src/metaharness/orchestration/gates.py:438-487 | Over any baseline the cache may answer with, an open gate has only failures that something observed on the base excuses. |
| Gate.PassedBaseExcusesNothing | MetaHarness/src/metaharness/orchestration/gates.py:388-394 | A check that only ever passed on the base closes the gate when it fails on the candidate. |
| Gate.JudgeCandidate | MetaHarness/src/metaharness/orchestration/gates.py:430-487 | Baseline and evidence together: the bundle passes exactly when each result is let through by an observation of its own definition on the base. |
| RunMachine.PhaseMovesOnlyByAdvance | MetaHarness/src/metaharness/models.py:564-606 | Only an advance changes the phase, from a running state to a successor. |
| RunMachine.PostureRules | MetaHarness/src/metaharness/models.py:572-635 | Which waits, failures, completions and resumes each posture accepts, and exactly the state each of them leads to. |
| RunMachine.StatusMeans | MetaHarness/src/metaharness/models.py:644-684 | What each projected status tells of posture and phase, and which runs are resumable or eligible. |
| RunMachine.AdvancesExactlyWhen | MetaHarness/src/metaharness/models.py:531-550 | Exactly which advances a running phase accepts: the next phase on the way to publication, another step or gate, the audit loop, a new plan after a gate, and the two short cuts of the planner. |
| RunMachine.ReachedStatesProject | MetaHarness/src/metaharness/models.py:661-684 | On every reached state the phase is set and the status projection never refuses; committed means the candidate was pushed. |
| RunMachine.VisitedPhasesFormAPath | MetaHarness/src/metaharness/models.py:531-550 | The phases of any run form a path of the successor graph. |
| RunMachine.TerminalStatesInRuns | MetaHarness/src/metaharness/models.py:576-592 | A completed state ends the run; a failed one is left only by a resume at the same phase. |
| RunMachine.EnteredFromPredecessor | MetaHarness/src/metaharness/models.py:531-550 | A phase met later was entered from one of its predecessors in between. |
| RunMachine.LeavesAudit | MetaHarness/src/metaharness/models.py:546 | An audit is left only for the deterministic gate. |
| RunMachine.AuditIsGatedAgain | MetaHarness/src/metaharness/models.py:542-546 | No run goes from an audit to a ready candidate without another deterministic gate in between. |
| RunMachine.ImplementedIsGated | MetaHarness/src/metaharness/models.py:538-546 | No run goes from an implemented step to a ready candidate without a deterministic gate in between. |
| RunMachine.ReadyWasGatedOrPlanned | MetaHarness/src/metaharness/models.py:531-550 | A ready candidate was entered from a gate or from the planner. |
| RunMachine.PublishAfterPushAfterReady | MetaHarness/src/metaharness/models.py:547-549 | Publication comes after a candidate push, which comes after a ready candidate. |
| RunMachine.DeliveredRunsWereReady | MetaHarness/src/metaharness/models.py:644-684 | A run reported committed or published had a ready candidate earlier. |
| StateStore.RunStateStore.Write | MetaHarness/src/metaharness/state.py:454-472 | The field-by-field write gives exactly the merged file, or leaves it when the failure reason contradicts or the state has no status. |
| StateStore.RunStateStore.UpdateMetadata | MetaHarness/src/metaharness/state.py:188-213 | Refines the metadata operation on the two files; writes exactly when it accepts. |
| StateStore.RunStateStore.SetRunState | MetaHarness/src/metaharness/state.py:215-233 | Refines the posture operation: the checkpoint owns the phase. |
| StateStore.RunStateStore.TransitionRun | MetaHarness/src/metaharness/state.py:235-261 | Refines the compare-and-set of one event on the observed identity. |
| StateStore.RunStateStore.RecordFailure | MetaHarness/src/metaharness/state.py:263-303 | Refines the terminal write, which never refuses for a bad checkpoint. |
| StateStore.OperationsKeepCoherence | MetaHarness/src/metaharness/state.py:454-472 | Every operation keeps the recorded status the projection of the recorded phase, posture and reason. |
| StateStore.MetadataNeverMovesTheMachine | MetaHarness/src/metaharness/state.py:188-213 | An accepted metadata write leaves the machine state unchanged, even beside a stale failure payload. |
| StateStore.ClaimIsDeclinedExactlyWhen | MetaHarness/src/metaharness/state.py:235-261 | For any two reads of a run: a transition claimed on the first is declined exactly when checkpoint bytes, generation or machine state have changed, and otherwise written exactly when the machine accepts the event and a failure payload names its reason; the file then holds the new state. |
| StateStore.StaleMetadataIsDeclinedExactlyWhen | MetaHarness/src/metaharness/state.py:188-213 | The same for a metadata write with an expected identity: declined exactly when outdated, otherwise written for every run that has a status. |
| StateStore.WrittenMeansNothingMoved | MetaHarness/src/metaharness/models.py:409-455 | Whatever was readable, nothing is written on an identity other than that of the very files it is written over. |
| StateStore.UnreadableCheckpointStopsControl | MetaHarness/src/metaharness/state.py:353-372 | Beside a checkpoint that is garbage, of another schema or without a phase, nothing but a failure is written. |
| StateStore.PostureIsWrittenExactlyWhen | MetaHarness/src/metaharness/state.py:424-440 | A posture is refused exactly against the phase of the checkpoint or without the reason a human wait needs; otherwise it is written as wanted, under the phase of the checkpoint, the wanted or the recorded one. |
| StateStore.FailureIsAlwaysRecorded | MetaHarness/src/metaharness/state.py:263-303 | A failure is recorded beside any checkpoint, and reads back as failed at the same phase with that reason. |
| StateStore.TransitionReadsBackExactlyWhen | MetaHarness/src/metaharness/state.py:235-261 | A written transition reads back as computed if and only if the checkpoint, if any, names its phase and either it has a reason or no failure reason stays recorded. |
| StateStore.ReachableFilesAreCoherent | MetaHarness/src/metaharness/models.py:755-772 | In every reachable file the recorded status equals the projection and the status read from the mapping alone. |
| StateStore.WritesMergeTheirFields | MetaHarness/src/metaharness/state.py:470-472 | A write sets its own keys and no others. |
| StateStore.NoLostField | MetaHarness/src/metaharness/state.py:188-261 | A merged field stays until a later write of the same key: no update is lost. |
| StateStore.GenerationComesFromAWrite | MetaHarness/src/metaharness/state.py:472 | The generation of a file is the stamp of one of the writes since. |
| StateStore.AtMostOneClaimSucceeds | MetaHarness/src/metaharness/state.py:235-261 | Among transitions that observed one identity at most one is written, given distinct stamps. |
| StateStore.MovesKeepTheLock | MetaHarness/src/metaharness/state.py:53-71 | Each move of any process keeps mutual exclusion and what the holder has loaded. |
| StateStore.UninterruptedCallIsPerformed | MetaHarness/src/metaharness/state.py:53-71 | With the lock free, a call that nobody interrupts is performed on the present file under the present checkpoint, and gives the lock back. |
| StateStore.FileIsTheSequentialMerge | MetaHarness/src/metaharness/state.py:188-303 | However processes interleave, crash and rewrite the unlocked checkpoint, the file is the sequential merge of the completed critical sections in lock order. |
| Resume.CheckpointRoundTrip | MetaHarness/src/metaharness/resume.py:68-95 | Parsing and encoding a checkpoint are inverse on exactly the valid records and their payloads. |
| Resume.ParsedExactlyWhen | MetaHarness/src/metaharness/resume.py:33-95 | Exactly which payloads are read, field by field, and which are refused for their schema. |
| Resume.RephaseStaysValidWhen | MetaHarness/src/metaharness/resume.py:98-113 | Moving the boundary gives a valid checkpoint exactly when the new phase's requirements are met; moving to the planner always does. |
| Resume.GateAndStoreReadTheSameCheckpoint | MetaHarness/src/metaharness/resume.py:116-119 | A checkpoint the gate accepts is one the store reads, with the same phase. |
| Resume.ResumableRunsCanBeClaimed | MetaHarness/src/metaharness/resume.py:148-226 | On a coherent file, resumable implies that the machine accepts the resume at the same phase, the two identities are equal, and an undisturbed claim is written. |
| Resume.OfferedExactlyWhen | MetaHarness/src/metaharness/resume.py:148-226 | The whole gate on a coherent file: exactly the readable record of a run that failed, waits for something external or stands at an approved plan, with no fatal failure, no refusal of recovery and the current planning protocol. |
| Resume.OnlyStoppedRunsAreOffered | MetaHarness/src/metaharness/resume.py:201-213 | Only a failed run, one waiting for something external, or an approved plan still recorded as running is offered. |
| Utf8.DecodeInvertsEncode | MetaHarness/src/metaharness/prompt_contracts.py:41-48 | Decoding inverts encoding up to replaced lone surrogates. |
| Utf8.CutPrefix | MetaHarness/src/metaharness/prompt_contracts.py:45-48 | Cutting the bytes anywhere and decoding leniently gives exactly the whole characters before the cut. |
| Utf8.CutSuffix | MetaHarness/src/metaharness/validation.py:158-166 | Dropping the first bytes anywhere and decoding leniently gives exactly the whole characters after the cut. |
| Utf8.FittingIsLongest | MetaHarness/src/metaharness/prompt_contracts.py:45-48 | The characters kept are the most that fit. |
| Utf8.FirstWholeIsFirst | MetaHarness/src/metaharness/validation.py:158-166 | The characters kept are the longest suffix that fits. |
| Utf8.Utf8Prefix | MetaHarness/src/metaharness/prompt_contracts.py:45-48 | The longest whole-character prefix within the limit; nothing for a limit of zero or less. |
| Utf8.BoundedTail | MetaHarness/src/metaharness/validation.py:158-166 | The text itself when it fits, otherwise the longest whole-character suffix within the limit. |
| Utf8.BoundedUtf8 | MetaHarness/src/metaharness/evidence.py:48-62 | Never over budget; a true prefix, the marker and a true suffix, each the longest for its half, or a true prefix alone under a tiny budget. |
| PromptBudget.PlaceholderExactlyWhen | MetaHarness/src/metaharness/prompt_contracts.py:180-184 | A placeholder is found exactly where the text goes on with two braces, a name of capitals, digits and underscores, and two braces. |
| PromptBudget.PlaceholderHasAName | MetaHarness/src/metaharness/prompt_contracts.py:180-184 | Whatever is taken for a placeholder has that form. |
| PromptBudget.RenderingFillsPieces | MetaHarness/src/metaharness/prompt_contracts.py:175-184 | Rendering replaces each known placeholder once, whatever its value looks like, and keeps unknown ones and all other text. |
| PromptBudget.StaticIsSmallest | MetaHarness/src/metaharness/prompt_contracts.py:220-227 | The fixed scaffold is never larger than the request. |
| PromptBudget.OneSectionChanges | MetaHarness/src/metaharness/prompt_contracts.py:209-216 | Replacing a section changes the request by its byte difference once per placeholder that injects it. |
| PromptBudget.RequestHoldsSections | MetaHarness/src/metaharness/prompt_contracts.py:209-216 | The request holds the text of each section wherever the template has its placeholder, and the bare section name where there is no such section. |
| PromptBudget.SavingTheExcessFits | MetaHarness/src/metaharness/prompt_contracts.py:255-264 | Shortening a rendered section by the whole excess makes the request fit. |
| PromptBudget.SecondaryNamesAreTheSecondarySections | MetaHarness/src/metaharness/prompt_contracts.py:233-242 | The truncation order holds exactly the secondary sections. |
| PromptBudget.OrderIsKept | MetaHarness/src/metaharness/prompt_contracts.py:233-242 | Declared secondary sections come before the others, in the order of their first declaration, and the others in the order of the request. |
| PromptBudget.ShortenedKeepsTheMost | MetaHarness/src/metaharness/prompt_contracts.py:250-264 | A shortened section is a prefix and the marker, and one more character would not save the excess. |
| PromptBudget.ShortenedBytes | MetaHarness/src/metaharness/prompt_contracts.py:257-264 | A shortened section with its marker stays within what is to be kept. |
| PromptBudget.ShortenOrEmpty | MetaHarness/src/metaharness/prompt_contracts.py:250-270 | One turn either makes the request fit or empties the section, and empties a rendered one only when not even the marker would fit. |
| PromptBudget.Truncate | MetaHarness/src/metaharness/prompt_contracts.py:229-286 | The order splits into emptied sections, at most one shortened one, and untouched ones; over budget only when all are emptied. |
| PromptBudget.SecondPass | MetaHarness/src/metaharness/prompt_contracts.py:272-284 | The reversed second pass, over what the first one left, changes no section and omits nothing more. |
| PromptBudget.InOrderHoldsCurrent | MetaHarness/src/metaharness/prompt_contracts.py:288-290 | The sections reported are those injected. |
| PromptBudget.TruncationSparesAuthority | MetaHarness/src/metaharness/prompt_contracts.py:230-284 | Truncation leaves every authority section identical, and an exhausted order means every secondary one is empty. |
| PromptBudget.CutFollowsOrder | MetaHarness/src/metaharness/prompt_contracts.py:246-284 | When a section was changed, everything before it in the order was emptied. |
| PromptBudget.DeduplicatedKeepOrder | MetaHarness/src/metaharness/prompt_contracts.py:305 | The reported omissions keep the order in which they were made. |
| PromptBudget.PayloadFromTemplate | MetaHarness/src/metaharness/prompt_contracts.py:187-306 | For every template, sections and budget: the exact refusals, authority byte-identical, overrun only with every secondary section empty, a section changed only when every one declared or standing before it is empty, each given up only from a request still too large, and the byte accounts. |
| Excerpts.UsableExactlyWhen | MetaHarness/src/metaharness/context.py:265-293 | A hit gives an excerpt exactly when it names at least one and at most 200 lines, all of which exist in the file. |
| Excerpts.JoinedLines | MetaHarness/src/metaharness/context.py:296-318 | Joining touching ranges covers exactly their union. |
| Excerpts.TouchesExactlyWhen | MetaHarness/src/metaharness/context.py:296-304 | Two excerpts touch exactly when one shares a line with the other, widened by one line on either side. |
| Excerpts.FitTogetherExactlyWhen | MetaHarness/src/metaharness/context.py:305-308 | Touching excerpts are joined exactly when they have at most 200 lines in all. |
| Excerpts.CoverageGrows | MetaHarness/src/metaharness/context.py:310-316 | Overwriting one slot in place adds exactly the new lines. |
| Excerpts.ExcerptCollector.Merge | MetaHarness/src/metaharness/context.py:296-318 | A hit is merged exactly when the first excerpt of its file it touches can take it within 200 lines; only that slot changes, to the joined range of the base file, and the covered lines grow by exactly the hit. |
| Excerpts.ExcerptCollector.Include | MetaHarness/src/metaharness/context.py:442-447 | A hit is merged or appended and then adds exactly its lines; it is refused only when it cannot be merged and the allowed number is reached. |
| Excerpts.ExcerptCollector.Collect | MetaHarness/src/metaharness/context.py:422-452 | The excerpts cover exactly the lines of the processed hits, each is at most 200 lines and equals its slice, at most the allowed number exist, and the loop stops early only at a usable hit that no excerpt can take and for which there is no room. |
| Excerpts.ApartMeansNoCommonLine | MetaHarness/src/metaharness/context.py:301-304 | Two excerpts are apart exactly when they share no line. |
| Excerpts.IncludeKeepsApartExactlyWhen | MetaHarness/src/metaharness/context.py:296-318 | One more hit keeps disjoint excerpts disjoint if and only if it shares no line with any of them but the one it is merged into. |
| Excerpts.NearbyHitsBecomeOne | MetaHarness/src/metaharness/context.py:422-447 | Any two adjacent hits of one file with at most 200 lines in all end as one excerpt with the text of the base file. |
| Excerpts.CollectedExcerptsMayOverlap | MetaHarness/src/metaharness/context.py:306-308 | In any file of 250 lines with room for two excerpts, the hits 1-150 and 100-250 are both collected and share lines. |
| ProgressLog.Log.SyncProgress | MetaHarness/src/metaharness/progress.py:284-348 | The in-place synchronisation computes the specified repair, deduplication, cap and numbering. |
| ProgressLog.ScanPrefix | MetaHarness/src/metaharness/progress.py:302-325 | The reading loop finds the valid prefix, its last number and the sources it holds. |
| ProgressLog.ScanKeepsLongestPrefix | MetaHarness/src/metaharness/progress.py:303-325 | On any log at all, exactly the longest monotone prefix is kept, unless a parsable foreign line stops it: then nothing is. |
| ProgressLog.MonotoneIsRising | MetaHarness/src/metaharness/progress.py:303-325 | The line by line test accepts exactly the prefixes of current-version lines that are numbered upwards from above zero. |
| ProgressLog.OldLineRebuildsLog | MetaHarness/src/metaharness/progress.py:309-331 | One readable line of another projection version, whatever was written around it, makes the log be written anew from its sources, numbered from 1. |
| ProgressLog.NumberRows | MetaHarness/src/metaharness/progress.py:337-344 | Appended rows are numbered on from the last kept one. |
| ProgressLog.FreshRowsFit | MetaHarness/src/metaharness/progress.py:333-336 | Appended rows are new, distinct and within the cap; when the cap cuts, exactly the newest ones are kept and the log is full. |
| ProgressLog.SyncedSelfWritten | MetaHarness/src/metaharness/progress.py:299-331 | On a self-written log cut anywhere, synchronising keeps the readable prefix and appends exactly the fresh rows. |
| ProgressLog.SyncKeepsSelfWritten | MetaHarness/src/metaharness/progress.py:284-348 | The log stays numbered 1 to n without a repeated source and within the cap, and keeps its readable prefix. |
| ProgressLog.RemainingFreshRows | MetaHarness/src/metaharness/progress.py:332-336 | When only the first of the fresh rows are read back, exactly the others are fresh again, the cap included; none when all are. |
| ProgressLog.SyncIsIdempotentExactlyWhen | MetaHarness/src/metaharness/progress.py:284-348 | On every self-written log, a second synchronisation with unchanged sources changes nothing if and only if the first one left no overlooked line, or the log was overlooked before and its readable lines leave no row to append. |
| ProgressLog.OverlookedSettlesExactlyWhen | MetaHarness/src/metaharness/progress.py:299-331 | An overlooked log is left alone exactly when its readable lines leave no row to append; otherwise it grows, stays overlooked and keeps the same readable lines, so it never settles. |
| ProgressLog.SyncAfterSync | MetaHarness/src/metaharness/progress.py:326-344 | A log longer than the read window is cut back to it and rebuilt to the very same lines. |
| ProgressLog.SelfWrittenExactlyWhen | MetaHarness/src/metaharness/progress.py:299-331 | Self-writing survives if and only if no line lies unread behind an exactly aligned read limit, or nothing is appended. |
| ProgressLog.EveryHistoryIsSelfWritten | MetaHarness/src/metaharness/progress.py:284-348 | Over every history of synchronisations and crash cuts in which no line is overlooked, the log is self-written. |
| ProgressLog.SmallLogIsNotOverlooked | MetaHarness/src/metaharness/progress.py:299-302 | Within the event cap, lines of at most 2048 bytes are all read back. |
| ProgressLog.SmallHistoriesAreSelfWritten | MetaHarness/src/metaharness/progress.py:284-348 | When no row takes more than 2048 bytes, every history of synchronisations and crash cuts is self-written and never overlooks a line. |
| ProgressLog.FullWindowRepeats | MetaHarness/src/metaharness/progress.py:299-331 | Whenever lines of one size fill the read window exactly, with at least one more within the cap behind them, the next synchronisation repeats what it does not read back. |
| ProgressLog.WideLinesAreRepeated | MetaHarness/src/metaharness/progress.py:299-331 | The concrete case: 626 rows of 64 KiB, written by one synchronisation; the next one repeats the last. |
| Publication.Validate | MetaHarness/src/metaharness/gitops.py:1520-1540 | Approval is exactly the non-empty accepted chain, or the direct-parent contract, with the approved tree. |
| Publication.ApprovedExactlyWhen | MetaHarness/src/metaharness/gitops.py:1520-1541 | Approval told on chains of commits: with records, any chain they describe; without, exactly a chain of one or two commits whose last parent is the expected one, absent only for one commit; and the approved tree. |
| Publication.ApprovedCommitsDescend | MetaHarness/src/metaharness/gitops.py:1520-1540 | An approved commit strictly descends from the base by single parents and has the approved tree. |
| Publication.PublicationRepository.PublishFastForwardBase | MetaHarness/src/metaharness/gitops.py:1479-1584 | The in-place attempt refines the specified one, for every ref table and every push outcome. |
| Publication.OutcomesExactlyWhen | MetaHarness/src/metaharness/gitops.py:1542-1584 | The exact condition of each answer of an attempt. |
| Publication.AttemptMovesExactly | MetaHarness/src/metaharness/gitops.py:1552-1584 | Which refs an attempt moves, and when: none unless the commit is approved, the run branch at it, the tracking base unmoved and the local base at the base or the commit. |
| Publication.DeliveredExactlyWhen | MetaHarness/src/metaharness/gitops.py:1479-1584 | From a base that agrees everywhere, a delivered attempt publishes exactly the commits for which a contract is met, and refuses all others without a move. |
| Publication.PublicationIsSafe | MetaHarness/src/metaharness/gitops.py:1505-1584 | Over every interleaving of attempts, crashes, failed pushes, retries and other writers, publishers write only the approved commit: locally only over the base, remotely only as a fast-forward. |
| Publication.AloneStep | MetaHarness/src/metaharness/gitops.py:1505-1584 | Without other writers each step keeps: one local and one remote move at most, from the base, in that order. |
| Publication.AloneItMovesOnce | MetaHarness/src/metaharness/gitops.py:1505-1584 | Without other writers, any number of publishers, crashes and retries together move each base ref at most once, from the base to the commit. |
| Publication.RetryFinishes | MetaHarness/src/metaharness/gitops.py:1497-1503 | From wherever an undisturbed publication stopped, one delivered retry finishes it and a further attempt changes no ref. |
| Publication.StepsAreTheAttempt | MetaHarness/src/metaharness/gitops.py:1505-1584 | The atomic steps of one publisher, uninterrupted, are exactly the attempt. |
| Publication.RemoteMovesOnlyFromBase | MetaHarness/src/metaharness/gitops.py:1550-1584 | Beside any other writers that leave the remote on the base, on the commit or off its history, every remote move of every interleaving starts from the base. |
| Publication.AttemptIsPlayed | MetaHarness/src/metaharness/gitops.py:1505-1584 | One undisturbed attempt is a play with the same refs, and a remote it moved was moved from where it was. |
| Publication.ThreeStepsDecide | MetaHarness/src/metaharness/gitops.py:1514-1551 | The first steps read both refs and decide as the attempt does. |
| Publication.DecidedAsAttempted | MetaHarness/src/metaharness/gitops.py:1514-1551 | What the reads decide is what the attempt does. |
| Publication.ThreeStepsFinish | MetaHarness/src/metaharness/gitops.py:1552-1584 | The remaining steps swap and push as the attempt does. |
| Publication.RemoteMovesFromBaseExactlyWhen | MetaHarness/src/metaharness/gitops.py:1550-1584 | From a run whose tracking ref is at the base: all plays of publishers move the remote only from the base if and only if it starts on the base, on the commit, or where no fast-forward reaches the commit. |
| Publication.StaleTrackingMovesFromElsewhere | MetaHarness/src/metaharness/gitops.py:1550-1551 | Concrete family: with a stale tracking ref the push fast-forwards a remote that had already left the base. |

## Left out

- Git as a program: subprocess calls, output text other than the status records, timeouts, credentials, undecodable paths, unmerged index entries, nested repositories staged as links, and the flags of an index entry (assume-unchanged, skip-worktree, intent-to-add). A process that sets such a flag can make the comparison after a restore fail, which in the model never happens.
- File modes, symlinks, directory and file path clashes, and edits to the ignore rules during an attempt; the ignore rules are fixed.
- Process groups, signals, log files and real time; a process is an arbitrary change with an arbitrary result.
- fsync, temporary files and the flock call; replacement of a file is one step and the lock is mutual exclusion.
- SHA-256 and JSON text, including number and string spelling; both are taken as injective.
- Other refs during a check: a snapshot compares HEAD, branch names and worktrees only, as the code does, so `Repository.RestoreCandidateState` and `CheckRunner.ProcessHost.RunChecks` say nothing about a ref the process moved.
- Repository.Repository.CommitTree: the subject, body and reflog text, and a missing tree object, are not modelled.
- Repository.Repository.CommitSafetyGate: the verification status, with the completeness of its deferred metadata, is one flag, and the staged-content scan is any function.
- StepAcceptance.AcceptedRun.Accept: the tree before a step is that of the run's tip, and a step that leaves it unchanged is one refusal, whether or not its verification was deferred.
- StateStore.RunStateStore.RecordFailure: reasons are non-empty stripped codes; the code refuses a reason with surrounding blanks because its payload then contradicts the stripped machine reason.
- StateStore.StatusOfRunState: the bridge from status spellings of older runs, which applies only to files without a disposition.
- Repository.Repository.RestoreCandidateState: the order in which paths are unlinked, which decides how many safe names are gone when an unsafe one stops it.
- CheckRunner.ProcessHost.RunChecks: log directories; whether a working directory is found is one function for the whole run; the retry policy answers from a finite list, so a policy that grants retries for ever is not covered.
- Resume.ResumableRunsCanBeClaimed: the durable approval artefact and the classification of fatal failures are any predicates.
- PromptBudget.PayloadFromTemplate: section digests and per-role section lists are not modelled; the truncation marker is any text.
- Utf8.BoundedUtf8: the marker is any text, not the fixed one.
- Excerpts.ExcerptCollector.Collect: instruction files, warnings and the byte budget of the rendered context are not modelled.
- ProgressLog.Log.SyncProgress: how sources are read, redacted and projected; rows are their source IDs, distinct within one synchronisation.
- Baseline.BaselineCache.EnsureSelected: the detached worktree a capture runs in, and the parsers of test reports, which are any function.
- The verdict list over several results, which maps the comparison of one check, and the filter of deferred verifications by the steps that passed.
- The convenience files that the cache leaves beside its records for the user interface.
- Redaction, sensitive-path rules and secret scanning.
- Agents, transports, planning, configuration loading, the user interface and the trace sink; of the orchestration only the acceptance of one step, the judging of checks in the final gate and the validation before publication are modelled.
