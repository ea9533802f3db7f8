# Asika verification model

Dafny models of the parts of Asika where several steps have to fit together, with proofs of what they
promise and, where the code falls short of it, the exact condition under which it holds.

The whole project is checked with `dafny verify dfyconfig.toml`.

| files | what they model |
|---|---|
| `Trees`, `ChangeReplay`, `Commits`, `CherryPicks`, `PRHistory`, `Rebases`, `Repositories` | the git replay engine: cherry-pick, merge-diff pick, `findPRCommits`, `Rebase`, `RebaseAndPush` |
| `Keys`, `Clocks`, `PRIndex`, `Sessions`, `SyncLocks` | the storage indexes, prefix scans and leases, on bbolt and on MongoDB |
| `PatternCache` | the labeler's LRU cache of compiled patterns |
| `WorkerPool`, `PoolShutdown`, `Debouncer`, `WriterActor` | the event consumer's concurrency, as interleaved atomic steps |
| `Glob` | the file-pattern matcher |
| `Approvals`, `DiffSplitter`, `Versions` | review replay, diff splitting, version ordering |

## How things are modelled

- A git tree is a map from path to a blob or a submodule link. A commit is the value its hash covers, so
  equal hashes mean equal commits; hash collisions do not exist in the model.
- A commit is built from the index alone, as go-git does; the index is the only part of the worktree kept.
- Keys and patterns are Go strings: one `char` stands for one byte.
- Clocks, timers, JSON decoding, regular expressions and `path.Match` are inputs of the members that use
  them. Times are integers.
- A bbolt bucket is a map whose keys a cursor visits in bytewise order. A Mongo collection is a map with
  atomic conditional replace and delete. A transaction is one step.
- Objects whose methods update their fields (`Repository`, `PRStorage`, `SessionStore`, `LockTable`,
  `Cache`) are classes. Goroutines are state machines: each atomic operation of the source is one action,
  and a run is any interleaving of them.

## What the proofs found

- A pick that only deletes files returns without committing (`git_ops.go:137-139`, `300-302`). The deletion
  stays staged: a later pick commits it, at the end of a branch it is lost, and bringing the file back before
  that is reported as a conflict. `Rebases` proves exactly when a replay succeeds and when HEAD holds the
  merge (`ReplaySucceedsIff`, `ReplayResult`), with `LastDeletionIsLost` and `ReAddAfterDeletionClashes`
  as inputs that fail.
- A submodule link in a commit is skipped without a word (`git_ops.go:118-121`); a later file in its place then
  conflicts (`SkippedLinkClashes`). `ReplaySucceedsIff` and `ReplayResult` cover such chains, too.
- `headChanged` records no deletions (`git_ops.go:76-80`), so a file the target deleted is written again
  without a conflict (`DeletedByHeadIsOverwritten`).
- A conflicting pick leaves the HEAD commit alone but has already staged the other changes
  (`FailedPickKeepsHead`).
- `findPRCommits` stops its walk at base, so below a merge it can miss commits that base does not reach
  (`MergeHeadLosesSideBranch`); `PRCommitsCompleteIff` says exactly when. `RebaseAndPush` does not filter its walk
  at all, and below a merge may try to pick commits that base has (`WalkIsPRCommitsIff`,
  `SideBranchFirstMeetsRoot`).
- `Rebase` pushes without force, so while the remote branch is where the local one was, the push of a
  rebased branch is always refused (`UnforcedPushIsRefused`).
- Mongo's `prefixEnd` is the right end of the range if and only if the last byte of the prefix is below
  0x7F (`RangeIsPrefixIff`), because Go's `string(b)` is a code point, not a byte.
- On bbolt deleting or refreshing a session that does not exist is an error, on Mongo it is not; a colon in a
  user name can let one user's scan reach another's sessions (`ColonLeaksSessions`; `ColonLeaksIff` says when).
- bbolt keeps times in nanoseconds, Mongo in milliseconds, so the two can differ on which sessions are inactive
  (`InactiveAgreesIff`). Moving a session id to another user leaves an index entry behind (`PutKeepsSoundIff`).
- Mongo's PR lookup never scans, and a dangling id entry hides a live number entry
  (`MongoAgreesWhenIndexed`). A number entry has no platform and may answer with another record
  (`NumberIndexMisdirects`; `NumberLookupIsScanIff` says when).
- Every lock Mongo grants bbolt would grant too, but not the other way round: Mongo wants the expiry
  strictly in the past, after rounding down to milliseconds.
- `adjust` counts cancelled workers that have not exited yet. Two scale-downs in a row can then leave no
  worker at all (`BusySamplesLoseMinimum`); `MinimumHoldsIff` is the exact condition. A scale-down under way can
  also cancel the last worker after `Stop` was called, even one that had only passed the check of `stopped`
  (`StopRacesScaleDown`, `StopRacesSample`, `StopEmptiesQueueIff`).
- Debouncing is best effort: a callback that has already fired removes the entry of the event after it, so
  that event is not coalesced (`StaleCallbackDefeatsCoalescing`). No latest event is lost by it.
- A caller of the writer may be told "writer actor stopped" although its write was made
  (`StoppedCallerMayHaveWritten`; `MisinformedIff` says when).
- Colons in pull-request ids or groups can make two identities share an index key, and then a lookup may return
  the other's record (`IdKeySharedIff`, `LookupIsScanIff`, `SharedKeyMixesUp`).
- A put racing a delete of the same session can leave a dangling index entry, and a refresh racing a delete can
  bring the session back (`PutRaceDanglesIff`, `RefreshRaceRevivesIff`).
- `Compare` is not the total order its comment states (`compare.go:41-42`): mixing recognised and
  unrecognised versions breaks transitivity, and upgrades can then cycle (`PreorderIff`, `MixedVersionsCycle`). The
  comment that a release is never offered a dev build (`compare.go:57-59`) is also not what the code does
  (`DevBuildsAsUpgrades`), and such a dev build is offered the release back. `UpgradesCycleIff` names both causes
  of circular upgrades and shows that there are no others.
- In a diff, a header without a new side in the middle of a file lists that file twice (`BadHeaderListsTwice`;
  `ParsersAgreeIff`).
- With equal timestamps the order in which reviews arrive can decide (`EqualTimesDependOnOrder`);
  `OrderIsIrrelevantIff` says exactly when it does not.

## Model

| member | source | states |
|---|---|---|
| `Trees.DiffTree` | common/gitutil/git_ops.go:57-60 | the tree diff lists every differing path exactly once, in any order, and never as a rename: the two names are equal or one is empty |
| `ChangeReplay.ReplayDiff` | common/gitutil/git_ops.go:82-133 | running the change loop over a whole diff stages the source's entry on exactly the differing paths HEAD did not write, reports exactly the others as conflicts, once each, and lists exactly the files it wrote |
| `ChangeReplay.RenamedChange` | common/gitutil/git_ops.go:103-130 | a change that renames, which the diff never lists, stops at an old name HEAD wrote with nothing done, or at a new one with the old name already removed; otherwise it removes the one and stages the other, but for a submodule link |
| `CherryPicks.CleanPickIsThreeWay` | common/gitutil/git_ops.go:82-151 | from a clean index a conflict-free pick that writes a file commits, as HEAD's only child, the source where it differs from its parent and HEAD elsewhere, keeping every addition and edit of HEAD |
| `CherryPicks.FailedPickKeepsHead` | common/gitutil/git_ops.go:133-135 | a failing pick leaves the HEAD commit alone and the staged copy of every file HEAD wrote; without a parent it changes nothing at all |
| `CherryPicks.BarePickOnlyStages` | common/gitutil/git_ops.go:137-139 | a delete-only pick makes no commit, and index and HEAD part ways exactly when HEAD had one of the files |
| `CherryPicks.DeletedByHeadIsOverwritten` | common/gitutil/git_ops.go:70-80 | compared with a merge that stops wherever both sides changed, the pick misses exactly the paths HEAD deleted, and brings those files back |
| `CherryPicks.ReplayedIsPick` | common/gitutil/git_ops.go:133-151 | the verdict and the state a pick leaves are decided by the loop's two lists: conflict when one is reported, else no commit when nothing was written, else a commit |
| `CherryPicks.PickReports` | common/gitutil/git_ops.go:85-135 | a pick from any state reports exactly the paths that the source changed against its parent and HEAD holds in another form than that parent, and is clean when there are none |
| `CherryPicks.PickStages` | common/gitutil/git_ops.go:90-131 | it stages the source's entry, or the deletion, on every path the source changed and it does not report, but for submodule links; on every other path the index stays |
| `CherryPicks.PickCommits` | common/gitutil/git_ops.go:133-151 | it makes a commit, HEAD its only parent and the index its tree, naming the source and whether that was a merge, exactly when nothing is reported and some file is written |
| `Repositories.Repository.ReplayOnto` | common/gitutil/git_ops.go:85-131 | the change loop, shared by both picks, stages and reports exactly as its specification over the list of changes |
| `Repositories.Repository.HeadChanged` | common/gitutil/git_ops.go:71-80 | `headChanged` is exactly the set of paths HEAD holds and added or modified since the source's parent |
| `Repositories.Repository.CherryPickRegular` | common/gitutil/git_ops.go:27-154 | for a commit without or with one parent, HEAD, index and result are those of the pick specification; conflicts are listed once each |
| `Repositories.Repository.CherryPickMergeDiff` | common/gitutil/git_ops.go:181-317 | a merge commit is picked by the same specification against its first parent; any other commit is refused without effect |
| `Repositories.Repository.CherryPick` | common/gitutil/git_ops.go:13-25 | regular and merge picks meet one and the same contract on every commit |
| `Repositories.Repository.Push` | common/gitutil/git_ops.go:319-344 | an unreachable remote and an up-to-date one are told apart; an unforced push only moves the remote branch forward to a descendant, a forced one always; any push but a successful one leaves the remote |
| `Repositories.Repository.ResetAndPick` | common/gitutil/git.go:154-168 | after the hard reset either every pick was clean and the fold of picks is in place, or the replay stopped at its first failing pick with HEAD at the commits before it |
| `Repositories.Repository.Rebase` | common/gitutil/git.go:104-184 | the commits found are replayed on base and pushed, unforced, only if all of them went through; otherwise the remote is untouched, and with nothing to replay everything is. The push is reported as failed exactly when the remote cannot be reached, already is at the new head, or is at a commit the new head does not descend from, each by its own error. For a branch without merges of its own, over any shared history, a pick fails exactly when the histories say so, and index and HEAD hold the three-way merge under their exact conditions |
| `Repositories.Repository.RebaseAndPush` | common/gitutil/git.go:186-281 | nothing happens when base is head or not in its history; a failing pick leaves the remote alone; after a full replay the remote is the replayed head, or the push failed, which is reported and only happens when the remote is unreachable |
| `Repositories.CommitsSince` | common/gitutil/git.go:238-252 | the walk reports base as found exactly when it is an ancestor, and then lists what it saw before base, reversed |
| `Commits.VisitIsComplete` | common/gitutil/git_util.go:80-86 | the preorder iterator yields every ancestor of a commit exactly once, on any finite history |
| `Commits.VisitOwnFirst` | common/gitutil/git_util.go:88-97 | whatever history lies below, the iterator first walks a merge-free branch's own commits along their parents, and only then what base reaches |
| `Commits.OwnChainLinks` | common/gitutil/git_util.go:88-97 | the branch's own commits form one line of parents that ends at a root or right above a commit of base |
| `PRHistory.ReverseInPlace` | common/gitutil/git_util.go:102-104 | the two-index loop reverses the slice |
| `PRHistory.FindPRCommits` | common/gitutil/git_util.go:78-106 | the three loops compute the reachability difference cut at base, oldest first |
| `PRHistory.PRCommitsSound` | common/gitutil/git_util.go:78-106 | on any history the result is free of duplicates and holds only commits reachable from head and not from base; it is the whole difference if and only if the walk meets no difference commit after base |
| `PRHistory.PRCommitsCompleteIff` | common/gitutil/git_util.go:78-106 | on any history the result is the whole difference if and only if base is no ancestor of head, or all of the difference lies left of base: on the way to it, or below a parent before the one that leads there |
| `PRHistory.LinearPRCommits` | common/gitutil/git_util.go:88-105 | when no commit of the branch that base lacks is a merge, the result is exactly the difference, each commit right after its parent, from just above a commit of base up to head; it is empty exactly when base already reaches head |
| `PRHistory.WalkToBase` | common/gitutil/git.go:238-249 | when base is an ancestor of such a branch, `RebaseAndPush`'s own walk lists the same commits as `findPRCommits`, the first sitting directly on base |
| `PRHistory.WalkIsPRCommitsIff` | common/gitutil/git.go:238-249 | on any history `RebaseAndPush`'s own, unfiltered walk lists what `findPRCommits` lists if and only if base reaches no commit left of it |
| `PRHistory.MergeHeadLosesSideBranch` | common/gitutil/git_util.go:90-93 | a history on which the early stop loses a commit that base does not reach |
| `Rebases.FoldStands` | common/gitutil/git.go:163-168 | while picks stay clean, the index holds on every path the last file or deletion the chain made there, and the target's entry where it made none; HEAD holds what the index held after the last commit that wrote a file |
| `Rebases.StandingIs` | common/gitutil/git_ops.go:118-121 | on a touched path that is the chain's own entry, unless that is a submodule link, which the pick skips; on an untouched path the target's |
| `Rebases.FoldIsMerge` | common/gitutil/git.go:163-168 | while picks stay clean, the index is one three-way merge of everything replayed so far, and HEAD that merge up to the last commit that wrote a file, each exactly as long as no link was skipped |
| `Rebases.StepVerdict` | common/gitutil/git_ops.go:90-117 | the next pick of a replay is clean exactly when on every path the commit changes the replay has nothing or what the commit expects, and the commit brings back no staged deletion |
| `Rebases.ReplaySucceedsIff` | common/gitutil/git.go:163-168 | a replay of any chain goes through if and only if every commit finds, on each path it changes, nothing or what it expects, and none brings back a path whose deletion is staged but uncommitted |
| `Rebases.FilesOnlyByEndPoints` | common/gitutil/git.go:163-168 | for a chain that makes no submodule links the first condition says that the target left every touched path absent or as it was at the fork, and no link is skipped |
| `Rebases.UncommittedIsStale` | common/gitutil/git_ops.go:92-99 | the staged but uncommitted deletions, described on the history alone, are exactly the paths HEAD has and the index has not |
| `Rebases.ReplayResult` | common/gitutil/git.go:163-176 | after a successful replay the index is the three-way merge if and only if no link was skipped, HEAD is the index if and only if no deletion is left uncommitted, and HEAD is the merge if and only if both hold |
| `Rebases.FoldOfPicksIsThreeWayMerge` | common/gitutil/git.go:154-176 | without delete-only commits the fold of picks is one three-way merge: for a chain of files it succeeds exactly when the target left every touched path absent or unchanged, and gives the last commit's content there and the target's elsewhere; with submodule links both hold under an exact condition |
| `Rebases.ReplayInPlace` | common/gitutil/git.go:254-265 | replaying a chain on its own fork point: the exact conditions for success and for getting the chain's own tree back, both implied by the absence of delete-only commits and submodule links |
| `Rebases.LastDeletionIsLost` | common/gitutil/git_ops.go:137-139 | a delete-only commit replayed on its own parent leaves HEAD where it was and the deletion staged |
| `Rebases.ReAddAfterDeletionClashes` | common/gitutil/git_ops.go:114-117 | deleting a file and adding it back conflicts although nobody else touched it |
| `Rebases.SkippedLinkClashes` | common/gitutil/git_ops.go:118-121 | a submodule link is skipped silently, and a file that takes its place conflicts although nobody else touched it |
| `Repositories.RebaseIsThreeWayMerge` | common/gitutil/git.go:143-176 | a PR branch without merges and delete-only commits of its own, over any shared history: `Rebase` succeeds exactly when base left every touched path absent or as it was at the fork, and HEAD is then base with the branch's content on the touched paths; with submodule links both hold under an exact condition |
| `Repositories.RebaseSucceedsIff` | common/gitutil/git.go:143-176 | the same with delete-only commits, under the two conditions the code really needs; after success HEAD holds the merge if and only if no link was skipped and no deletion is left uncommitted |
| `Repositories.RebaseAndPushKeepsTree` | common/gitutil/git.go:234-265 | on its own ancestor a branch without merges, delete-only commits and links of its own never conflicts and keeps its own tree; with deletions and links both have an exact condition |
| `Repositories.WalkMeetsRootIff` | common/gitutil/git.go:238-265 | that walk holds a commit that cannot be picked, for want of a parent, if and only if a root lies left of base |
| `Repositories.SideBranchFirstMeetsRoot` | common/gitutil/git.go:238-265 | so it does below a merge whose first parent is a side branch, although base is the other parent |
| `Repositories.UnrelatedHistoriesFail` | common/gitutil/git_ops.go:42-45 | any two branches without a common commit cannot be rebased: all commits of head are picked, and one of them has no parent to diff with |
| `Repositories.UnforcedPushIsRefused` | common/gitutil/git.go:170-173 | after the replay of a branch without merges of its own, an unforced push over the old head is refused and a forced one accepted |
| `Keys.Cursor` | common/db/bbolt_core.go:141-142 | a cursor visits every key of the bucket in ascending byte order |
| `Keys.AscendingUnique` | common/db/bbolt_core.go:141-142 | the visiting order is determined by the set of keys |
| `Keys.LessIff` | common/db/bbolt_core.go:141-142 | of two keys the one comes first that ends, or has the lower byte, where they first differ |
| `Keys.ScanPrefix` | common/db/bbolt_core.go:157-172 | the seek-and-next loop, which stops at the first key without the prefix, visits exactly the keys that have it, ascending |
| `Keys.ScanIndex` | common/db/bbolt_core.go:131-155 | the index scan delivers exactly the live targets of the entries with the prefix, in key order, and skips dangling entries |
| `Keys.MongoScanPrefix` | common/db/mongo_core.go:243-275 | Mongo's scan delivers exactly the keys of its half-open range, ascending; an empty prefix has no range |
| `Keys.RuneDecodes` | common/db/mongo_core.go:204 | a byte below 128 is itself as a string, any other the two bytes that hold its upper bits and its lower six |
| `Keys.RangeIsPrefixIff` | common/db/mongo_core.go:204-205 | the range holds exactly the keys with the prefix if and only if the prefix ends in a byte below 0x7F; for all others some key tells the two scans apart |
| `Keys.CompositeInjective` | common/db/bbolt_sessions.go:19-20 | with colon-free first parts a composite key determines both its parts |
| `Keys.OwnPrefix` | common/db/bbolt_sessions.go:49-50 | a scan for one colon-free name reaches the composite keys of that name and of no other |
| `PRIndex.PRStorage.PutPRWithIndex` | common/db/bbolt_core.go:174-206 | the record, its id entry when it has an id and its number entry when it has a group are written together, and nothing else |
| `PRIndex.PRStorage.ReadIndexes` | common/db/bbolt_core.go:208-253 | the first transaction answers by a live id entry, else by a live number entry |
| `PRIndex.PRStorage.ScanFor` | common/db/bbolt_core.go:259-284 | the second transaction finds the first record in key order that decodes to the id and, if given, the group, and misses exactly when there is none |
| `PRIndex.PRStorage.GetPRByIndex` | common/db/bbolt_core.go:208-313 | the three together, undisturbed, on the buckets themselves: a live id entry answers, else a live number entry, and nothing is written; otherwise the first record in key order that decodes to the id and group does, and is filed in both indexes under its own group and number; a miss changes nothing |
| `PRIndex.PRStorage.Heal` | common/db/bbolt_core.go:288-311 | the third transaction files the record under its own group and, if it has both, group and number, and touches no record; a record that does not decode is left alone |
| `PRIndex.IdKeyInjective` | common/db/bbolt_core.go:186-189 | with colon-free ids and groups an index key belongs to one identity only |
| `PRIndex.IdKeySharedIff` | common/db/bbolt_core.go:186-189 | whatever the names, two identities share an index key if and only if they are the same, or one group goes on with a colon and the front of the other's id (for an empty group, the id is the other's whole key) |
| `PRIndex.IdKeyCollides` | common/db/bbolt_core.go:186-189 | with a colon two identities can share a key |
| `PRIndex.DecimalSpells` | common/db/bbolt_core.go:198 | the number in an index key is spelled in decimal digits, with a minus sign if negative, and holds no colon |
| `PRIndex.NumberKeyInjective` | common/db/bbolt_core.go:198 | a number key belongs to one group and one number, whatever colons the group has |
| `PRIndex.LookupIsScan` | common/db/bbolt_core.go:208-313 | on a sound index a lookup by id returns exactly what a full scan finds, whichever records were indexed, and keeps the index sound |
| `PRIndex.LookupIsScanIff` | common/db/bbolt_core.go:208-313 | whatever the names, on a sound index a lookup by id within a group is the scan if and only if the id entry does not lead to a live record of another identity, which must then share the key |
| `PRIndex.SharedKeyMixesUp` | common/db/bbolt_core.go:183-193 | any two identities that share a key are mixed up once both are stored: the first's lookup returns the second's record |
| `PRIndex.NumberLookupIsScanIff` | common/db/bbolt_core.go:208-313 | with a number given as well, a lookup differs from the scan exactly when the id entry is not live, the number entry is, and it leads to a record of another identity |
| `PRIndex.HealMakesIndexHit` | common/db/bbolt_core.go:288-311 | after a scan hit the next lookup in the record's own group is an index hit with the same bytes and writes nothing |
| `PRIndex.RunKeepsSound` | common/db/bbolt_core.go:174-313 | any mix of indexed and unindexed writes, removals, lookups, and heals that come at any time after their scan keeps the index sound at every moment, whatever the names, as long as a key keeps its identity |
| `PRIndex.RunLookupIsScan` | common/db/bbolt_core.go:174-313 | after any such run, identities being unique and colon-free, a lookup by id within a group answers exactly as a full scan would |
| `PRIndex.RunLookupIsScanIff` | common/db/bbolt_core.go:174-313 | the same for any names, if and only if the id entry does not lead to a live record of another identity |
| `PRIndex.SplitLookupIsScan` | common/db/bbolt_core.go:208-313 | a lookup with others at work between its transactions answers exactly as a full scan at one of them: at the index transaction if that hit, else at the scan |
| `PRIndex.PutIsFound` | common/db/bbolt_core.go:174-206 | an indexed record is found again under its id and under its number, and every other record is kept |
| `PRIndex.MongoAgreesWhenIndexed` | common/db/mongo_core.go:305-349 | what Mongo answers bbolt answers too; the two differ exactly when the id entry dangles beside a live number entry, or only a scan finds the record |
| `PRIndex.NumberIndexMisdirects` | common/db/bbolt_core.go:230-245 | after a miss by id the number index can answer with a record of another id |
| `Sessions.SessionStore.PutSession` | common/db/bbolt_sessions.go:11-21 | a put stores the session and its index entry in two transactions, the session first |
| `Sessions.SessionStore.DeleteSession` | common/db/bbolt_sessions.go:35-45 | a live session loses its index entry first and then its record; a missing one is an error without effect |
| `Sessions.SessionStore.ListUserSessions` | common/db/bbolt_sessions.go:47-60 | the live sessions behind the index entries with the user's prefix are listed, one for each entry, in the order of the keys |
| `Sessions.SessionStore.ListAllSessions` | common/db/bbolt_sessions.go:62-73 | exactly the stored sessions are listed, once each |
| `Sessions.SessionStore.DeleteUserSessions` | common/db/bbolt_sessions.go:75-86 | on any store: it fails exactly when the scan reaches a session over two entries, and otherwise removes exactly the sessions the scan leads to with their users' entries |
| `Sessions.SessionStore.DeleteInactiveSessions` | common/db/bbolt_sessions.go:88-103 | on any store it never fails, removes exactly the sessions last used before the cutoff with their entries, and counts them |
| `Sessions.SessionStore.UpdateSessionActivity` | common/db/bbolt_sessions.go:105-119 | a refreshed session has the given time, its own id and its own user; every other session and every index entry stays; a missing session is an error without effect |
| `Sessions.DeleteIdsKeeps` | common/db/bbolt_sessions.go:75-103 | deleting any sessions in bulk keeps a sound index sound and a complete one complete |
| `Sessions.InactiveAgreesIff` | common/db/mongo_sessions.go:98-106 | Mongo compares dates in whole milliseconds: it never deletes a session bbolt keeps, and both delete the same ones with the same count if and only if no session was last used in the cutoff's own millisecond before it |
| `Sessions.RefreshDecidesInactivity` | common/db/bbolt_sessions.go:88-119 | after a refresh a deletion by time spares the session exactly if the refresh was not before the cutoff, and treats every other session by its own time |
| `Sessions.MongoRefreshDecides` | common/db/mongo_sessions.go:98-113 | on Mongo the same, comparing both times in whole milliseconds |
| `Sessions.ScanIsFilterIff` | common/db/bbolt_sessions.go:47-60 | whatever the names, the scan for a user answers like Mongo's filter if and only if all of the user's sessions are indexed and no other user's entry starts with the user's prefix |
| `Sessions.ScanIsFilter` | common/db/mongo_sessions.go:53-96 | with colon-free names the index scan finds and deletes exactly what Mongo's filter on the user name does |
| `Sessions.ScanIsFilterIffComplete` | common/db/bbolt_sessions.go:47-60 | that holds for all users if and only if every session has its index entry |
| `Sessions.ColonLeaksIff` | common/db/bbolt_sessions.go:49-50 | on a complete index that is: if and only if no session of another user has a key with the user's prefix |
| `Sessions.ColonLeaksSessions` | common/db/bbolt_sessions.go:49-50 | a colon in a user name lets another user's scan reach the session |
| `Sessions.EveryTransactionIsSafe` | common/db/bbolt_sessions.go:11-45 | after every single transaction of a put or delete, cut there or not, no index entry dangles |
| `Sessions.PutRaceDanglesIff` | common/db/bbolt_sessions.go:11-45 | a put and a delete of the same session, their transactions interleaved anyhow, leave a dangling entry if and only if the delete drops the entry before the put stores it, and the record after the put has stored that; the session as put survives if and only if the whole delete comes first |
| `Sessions.RefreshRaceRevivesIff` | common/db/bbolt_sessions.go:35-119 | a refresh brings a deleted session back, with the new time and without an entry, if and only if it read it before the delete dropped the record and wrote it after |
| `Sessions.PutKeepsSoundIff` | common/db/bbolt_sessions.go:11-21 | a put keeps the index sound if and only if it does not move an indexed session to another user; if it does, the former user's scan reaches the session |
| `Sessions.StepAgreesIff` | common/db/mongo_sessions.go:15-113 | an operation, bulk deletes included and perhaps cut, leaves bbolt and Mongo with the same sessions if and only if a delete by user finds the sessions it deletes indexed and a delete by time meets no session in the cutoff's own millisecond |
| `Sessions.RunSimulatesMongo` | common/db/bbolt_sessions.go:11-119 | every run of puts, deletes, refreshes and both bulk deletes, cut anywhere and any number of times, keeps the store sound and without dangling entries; it stands over exactly Mongo's collection as long as its steps agree, and without cuts its index is complete |
| `Sessions.RunListsLikeMongo` | common/db/mongo_sessions.go:53-106 | after any uncut run whose cutoffs no session straddles, listing and deleting by user and deleting by time, with its count, do what Mongo does; the last one exactly under the same condition |
| `SyncLocks.LockTable.Acquire` | common/db/bbolt_core.go:546-582 | on both backends the lock is replaced exactly when it is free, one's own or expired by that backend's reading of expiry; a refusal changes nothing, and on Mongo it surfaces as a duplicate key |
| `SyncLocks.LockTable.Release` | common/db/bbolt_core.go:584-603 | only the holder's own lock is removed |
| `SyncLocks.GroupsHaveOwnLocks` | common/db/bbolt_core.go:547 | two repository groups have the same lock only if they are the same group |
| `SyncLocks.MongoGrantIsBboltGrant` | common/db/mongo_lock.go:19-25 | every Mongo grant would be a bbolt grant; bbolt makes one more if and only if somebody else's lease has expired, but not before the current whole millisecond |
| `SyncLocks.AtMostOneLease` | common/db/bbolt_core.go:546-603 | in every run whose clock readings never run ahead of real time, on either backend, two holders never both have a running, unreleased most recent grant |
| `SyncLocks.StrangerReleaseIsNoOp` | common/db/mongo_lock.go:47-53 | releasing a lock one does not hold changes nothing and takes no one's grant |
| `SyncLocks.TakeoverBreaksIff` | common/db/bbolt_core.go:556-579 | an acquisition makes two leases run at once if and only if its clock reading makes somebody else's running lease look expired and the new lease is running, too |
| `SyncLocks.FastClockBreaksExclusion` | common/db/bbolt_core.go:563-565 | one clock running ahead is enough for two running leases |
| `PatternCache.Cache.Matches` | daemon/labeler/labeler.go:233-264 | a pattern with one of `*`, `?` and `[` in it matches if the glob does, and any pattern if it compiles and the expression matches; the cache's keys move as one step of the recency list says; map and list stay in bijection |
| `PatternCache.Cache.MoveToFront` | daemon/labeler/labeler.go:242-243 | the hit element becomes the most recent, the others keep their order |
| `PatternCache.Cache.EvictOldest` | daemon/labeler/labeler.go:253-259 | exactly the least recent pattern leaves map and list |
| `PatternCache.TouchTruncates` | daemon/labeler/labeler.go:242-261 | eviction commutes with recency: one access on the truncated list is the truncation of one access on the full list |
| `PatternCache.CacheHoldsMostRecent` | daemon/labeler/labeler.go:212-264 | after any accesses the keys are exactly the most recently used distinct valid patterns up to the capacity, in recency order |
| `PatternCache.Replay` | daemon/labeler/labeler.go:233-264 | driving the cache with any accesses gives the uncached answers throughout. The keys it ends with are patterns that compiled and were looked up without a glob match, each used more recently than the next; it holds all such patterns, or 1000 that were each used more recently than whatever it lacks |
| `Glob.ScanClass` | daemon/handlers/pr_extra.go:421-437 | the class loop finds the byte exactly when it lies in an item of the class, and resumes behind the closing bracket, or at the end if there is none |
| `Glob.MatchSomeTail` | daemon/handlers/pr_extra.go:402-407 | trying only the non-empty tails after a star loses no match |
| `Glob.MatchAfterStar` | daemon/handlers/pr_extra.go:395-407 | a run of stars matches exactly when some tail of the name matches the rest of the pattern |
| `Glob.GlobMatch` | daemon/handlers/pr_extra.go:384-454 | it terminates, and a non-empty pattern matches exactly the names the declarative reading of its tokens accepts |
| `Glob.PatternRules` | daemon/handlers/pr_extra.go:393-453 | on the text of patterns: a star matches any front of the name, a question mark any one byte, an opening bracket at the end nothing, and every other byte itself |
| `Glob.ClassRule` | daemon/handlers/pr_extra.go:411-441 | a class in brackets matches one byte that is, or with `!` or `^` in front is not, one of its bytes or within one of its ranges, and the rest of the pattern the rest of the name |
| `Glob.UnclosedClassRule` | daemon/handlers/pr_extra.go:422-437 | a class that is never closed counts as closed by the end of the pattern |
| `Glob.EmptyClasses` | daemon/handlers/pr_extra.go:416-440 | a class closed at once accepts nothing and its negation is a question mark |
| `WorkerPool.TasksAreConserved` | daemon/consumer/pool.go:55-135 | in every run each accepted task is queued, in hand or finished exactly as often as it was accepted, tasks are taken in order, at most four times the maximum are queued, a submission waits exactly when that many are, and can be dropped exactly once the stop channel is closed |
| `WorkerPool.StopSteps` | daemon/consumer/pool.go:137-141 | in every run `stopped` is set and the channel closed once each, in this order and whatever the others are doing |
| `WorkerPool.WaitingWorkerMay` | daemon/consumer/pool.go:95-116 | in every run a waiting worker may take the oldest task exactly when there is one, leave exactly when it is cancelled, and begin to drain exactly once the channel is closed |
| `WorkerPool.DrainerLeavesEmpty` | daemon/consumer/pool.go:99-110 | in every run a worker that has begun to drain, cancelled or not, leaves only on finding the queue empty |
| `WorkerPool.CounterIsExactAndBounded` | daemon/consumer/pool.go:79-227 | the worker counter never passes the maximum and counts the workers that have not exited; before the stop it equals the outstanding cancel functions plus the cancelled workers not yet gone, plus one in mid-spawn; the cancel functions are those of the uncancelled workers, each once |
| `WorkerPool.ScalingIsPacedAndJustified` | daemon/consumer/pool.go:179-227 | two scalings are at least the cooldown apart, and each follows a load sample on its side of the thresholds |
| `WorkerPool.DecisionIsExact` | daemon/consumer/pool.go:179-227 | in every run a decision rests on the latest samples; within the cooldown the pool stays, and after it the pool grows if and only if the load has reached the upper threshold and fewer than the maximum were counted, and shrinks if and only if it does not grow, the load is at or below the lower threshold and more than the minimum were counted |
| `WorkerPool.AdjustmentDecides` | daemon/consumer/pool.go:179-227 | whenever no adjustment is under way, the pool is not stopped and its channel has room, an adjustment can run, and if undisturbed decides so by the load and workers it started from |
| `WorkerPool.ScaleUpAddsWorker` | daemon/consumer/pool.go:79-120 | a scale-up of a running pool adds one waiting, uncancelled worker and counts it |
| `WorkerPool.ScaleDownCancelsNewest` | daemon/consumer/pool.go:216-223 | a scale-down cancels the newest uncancelled worker and no other |
| `WorkerPool.ScaleDownKeepsMinIff` | daemon/consumer/pool.go:192-221 | a scale-down keeps the minimum if and only if the sampled count exceeds it by more than the cancelled workers still around |
| `WorkerPool.MinimumHoldsIff` | daemon/consumer/pool.go:179-227 | before the stop the uncancelled workers stay at or above a positive minimum if and only if every cancellation follows a sample that exceeds the minimum by more than the cancelled workers still around; samples that lead to no cancellation do not matter |
| `WorkerPool.MinimumHolds` | daemon/consumer/pool.go:179-227 | so it does, before and after the stop, whenever the cancelled workers are gone at the samples that lead to a cancellation |
| `PoolShutdown.BusySamplesLoseMinimum` | daemon/consumer/pool.go:192-221 | otherwise, with ordinary thresholds and one long task, a pool with a minimum of one ends up with no uncancelled worker |
| `PoolShutdown.StopWithSurvivorFinishes` | daemon/consumer/pool.go:91-227 | if, at any moment after `Stop` began, some worker is sure to escape cancellation whatever load a pending sample finds, and nothing is submitted once the channel is closed, the queue is empty when `Stop` returns and every accepted task has finished, exactly once |
| `PoolShutdown.StopEmptiesQueueIff` | daemon/consumer/pool.go:91-227 | with no submission after the call of `Stop`, the queue is empty whenever it returns if and only if it was empty at the call or some worker was then sure to survive: one uncancelled that the adjustment under way, even if it has only passed the check of `stopped` and samples later, cannot cancel, or one in mid-spawn |
| `PoolShutdown.StopRacesScaleDown` | daemon/consumer/pool.go:137-227 | an uncancelled worker at the call is not enough: a run in which the adjustment under way cancels it and `Stop` returns with tasks in the queue |
| `PoolShutdown.StopRacesSample` | daemon/consumer/pool.go:179-188 | the same when the adjustment has only found the pool not stopped and has not sampled anything yet |
| `PoolShutdown.StopCanReturn` | daemon/consumer/pool.go:91-141 | from every reachable state after the channel closed, workers and adjuster can all come to an end and `Stop` return |
| `PoolShutdown.TasksCanAllFinish` | daemon/consumer/pool.go:91-135 | from every reachable state before the channel closes that has a launched, uncancelled worker, the workers can by themselves finish every accepted task |
| `PoolShutdown.QuietPoolLosesNothing` | daemon/consumer/pool.go:55-141 | a pool with a minimum of at least one whose cancellations follow samples without cancelled workers loses no accepted task |
| `Debouncer.LatestEventIsNeverLost` | daemon/consumer/consumer.go:164-194 | in every interleaving of arrivals, timers, callbacks, stops and restarts, an event overtaken by no later event of its key and by no stop is on its way to the open pool or delivered; no event is delivered twice |
| `Debouncer.LatestEventIsDelivered` | daemon/consumer/consumer.go:236-259 | once all callbacks are through, such an event has been delivered exactly once |
| `Debouncer.StopSweepsListed` | daemon/consumer/consumer.go:179-184 | a stop cancels exactly the timers that still run and are still listed, and empties the table |
| `Debouncer.ArrivalSupersedesIff` | daemon/consumer/consumer.go:242-244 | an arrival cancels the event before it exactly when that event's timer still runs and its entry is still listed, and no other event |
| `Debouncer.StaleCallbackDefeatsCoalescing` | daemon/consumer/consumer.go:246-249 | a callback that fired just before the next arrival removes that arrival's entry: three events of one key are all delivered |
| `Debouncer.RunKeepsSound` | daemon/consumer/consumer.go:164-259 | in every run the table leads each key to its latest event, an event is given up only for a later one of its key or for a stop after its arrival, and only a callback of such an event can hold a closed pool |
| `Debouncer.OutcomesIff` | daemon/consumer/consumer.go:164-259 | in every reachable state an event can still be delivered if and only if it is on its way or was delivered, and can still be lost to a stop if and only if it is on its way or was lost to one |
| `Debouncer.DroppedLateIff` | daemon/consumer/pool.go:129-135 | in every run a callback's hand-over can be dropped if and only if the pool it read was stopped since, even if another pool runs by then |
| `Debouncer.ArrivalIsTakenIff` | daemon/consumer/consumer.go:129-151 | in every run events are taken in exactly from a start on until the loop exits |
| `Debouncer.StopAwaitsLoop` | daemon/consumer/consumer.go:164-194 | the pool is stopped, and the stop completed, only after the loop has exited |
| `WriterActor.WritesInOrderAndAcknowledged` | daemon/consumer/writer.go:44-153 | database writes happen in channel order, at most once each; a write goes to the link tables if and only if its request is a link, to the sync history if and only if it is a record that names neither id, group nor number, and to the pull requests if and only if it is a record that names at least one; the actor never blocks on a reply; a caller told success has its write in the log |
| `WriterActor.StoppedCallerMayHaveWritten` | daemon/consumer/writer.go:97-107 | around a stop a caller can be told that the writer stopped although its write is in the log |
| `WriterActor.MisinformedIff` | daemon/consumer/writer.go:64-107 | in every reachable state, a waiting caller may yet be told that the writer stopped while its write is in the log if and only if the write is there already, or its turn has not come and the actor has not left |
| `WriterActor.AnswersIff` | daemon/consumer/writer.go:64-153 | in every reachable state, a waiting caller may yet be given a certain outcome, with its write made or not, if and only if its request was performed so, or its turn has not come, the actor has not left and it is not success without a write |
| `WriterActor.ChannelIsBounded` | daemon/consumer/writer.go:97-107 | the channel never holds more than its capacity, a caller can send exactly while there is room and be turned away exactly after the stop, which can be called once at any time |
| `WriterActor.StoppedActorCanLeave` | daemon/consumer/writer.go:62-93 | from every reachable state after the stop the actor can leave as soon as it has answered what it holds, and what is then still buffered is never performed |
| `Approvals.GetApprovals` | common/platforms/github.go:380-436 | a failing page request ends the call with an error. Otherwise nobody asked to review again is in either set, and everybody else approves (blocks) exactly when the decisive review of theirs that no other follows, in time or at the same time by arrival, approves (requests changes); a failing request for the people asked again removes nobody |
| `Approvals.JoinedInPageOrder` | common/platforms/github.go:386-396 | each page's reviews stand, in their order, between those of the pages before it and those of the pages after it |
| `Approvals.NextReview` | common/platforms/github.go:397-416 | a review not older than all others: an approval and a request for changes replace each other, a dismissal takes both back, and a comment, another person's review or one without a user changes nothing |
| `Approvals.SortByTimeSorts` | common/platforms/github.go:397-399 | the sorted reviews are in order of time |
| `Approvals.SortByTimeMembers` | common/platforms/github.go:397-399 | the sort is a permutation |
| `Approvals.ReplayIsLastWord` | common/platforms/github.go:400-416 | somebody approves (blocks) exactly when their last decisive review approves (requests changes), and nobody does both |
| `Approvals.OrderIsIrrelevantIff` | common/platforms/github.go:397-416 | the last word of a person is the same for every order of arrival if and only if the person's decisive reviews at their latest time agree on it; earlier ties and ties that agree do no harm |
| `Approvals.OrderDoesNotMatter` | common/platforms/github.go:386-416 | so being an approver, or a blocker, does not depend on the order of reviews and pages if and only if the latest reviews agree on it, and is then "latest decisive review wins" |
| `Approvals.ApproverResultIff` | common/platforms/github.go:386-425 | being an approver in the final result does not depend on the order of reviews and pages if and only if the person was asked to review again or the latest reviews agree on it |
| `Approvals.BlockerResultIff` | common/platforms/github.go:386-425 | likewise for being a blocker |
| `Approvals.DistinctTimesAgree` | common/platforms/github.go:397-399 | in particular when the times differ |
| `Approvals.EqualTimesDependOnOrder` | common/platforms/github.go:397-399 | with equal times the order of arrival decides |
| `DiffSplitter.ParseDiffFileContents` | common/platforms/gitea_helpers.go:24-66 | the loop computes the line-by-line parse of the split text |
| `DiffSplitter.ParseDiffFiles` | common/platforms/gitea_helpers.go:9-22 | the names are those of the header lines that have a new side, in order |
| `DiffSplitter.HeaderLineName` | common/platforms/gitea_helpers.go:36-38 | a header naming one file on both sides gives that name back, if it holds no " b/" |
| `DiffSplitter.HeaderNamesOf` | common/platforms/gitea_helpers.go:13-19 | on any line: a line that starts with "diff --git a/" names what stands between that and the first " b/", and no other line names anything |
| `DiffSplitter.JoinLines` | common/platforms/gitea_helpers.go:11-43 | splitting cuts at every newline, and joining with newlines gives the text back |
| `DiffSplitter.RoundTrip` | common/platforms/gitea_helpers.go:9-66 | for such headers every section is recovered with its name, its lines as the patch, its status and the numbers of its added and deleted lines, both parsers list the same names, and rendering the files again gives back the text from the first header on if and only if at least one line follows every header |
| `DiffSplitter.CountsAreCardinalities` | common/platforms/gitea_helpers.go:54-58 | additions (deletions) are the number of patch lines that start with "+" but not "+++" ("-" but not "---"), and no line is of both |
| `DiffSplitter.LastMarkerDecides` | common/platforms/gitea_helpers.go:46-52 | the status is that of the last marker line of the section |
| `DiffSplitter.ParsersAgreeIff` | common/platforms/gitea_helpers.go:9-66 | on any text the two parsers agree on the names if and only if no header without a new side follows a well-formed one; each such header lists the open file once more |
| `DiffSplitter.BadHeaderListsTwice` | common/platforms/gitea_helpers.go:31-44 | a header without a new side in the middle of a file lists that file twice: as it was then, and with the lines from before and after that header |
| `Versions.CompareAntisymmetric` | common/version/compare.go:43-52 | on all strings the other way round gives the opposite answer, within -1 to 1 |
| `Versions.CompareTransitiveWithinClass` | common/version/compare.go:43-52 | the order is transitive unless exactly two of the three versions are recognised |
| `Versions.PreorderIff` | common/version/compare.go:41-52 | on any set of versions `Compare` is a preorder if and only if no unrecognised one stands, as a string, between two recognised ones that do not compare the same way |
| `Versions.CompareZeroIff` | common/version/compare.go:115-134 | recognised versions compare equal exactly when date, suffix and hash agree |
| `Versions.RecognisedIff` | common/version/compare.go:77-113 | recognised are the word "dev" and exactly the texts of eight digits from 10000000 to 99991231, one of the five suffixes, and perhaps a hyphen and a hash |
| `Versions.OlderIff` | common/version/compare.go:115-134 | of two such texts the earlier date is older; on one day DEV is older than DEP, then no suffix, then CVE, then HF; with the same suffix the hash decides byte by byte |
| `Versions.DevIsOldest` | common/version/compare.go:77-120 | "dev" is older than everything dated and equal to itself |
| `Versions.UnrecognisedIsText` | common/version/compare.go:43-52 | unless both are recognised, two versions compare as text |
| `Versions.EqualVersions` | common/version/compare.go:77-134 | they are then the same text but for a hyphen with nothing behind it |
| `Versions.DateIsDigits` | common/version/compare.go:84-88 | a recognised date is eight digits: no signed number of eight bytes passes the bounds |
| `Versions.UpgradeableIff` | common/version/compare.go:36-68 | a version with a hyphen and "dev" are offered any other kind of version, every other version exactly what it compares older than, and nothing is offered the empty version |
| `Versions.LaterDateIsUpgrade` | common/version/compare.go:60-121 | of two plain dated releases the one with the later date is the upgrade, and only that |
| `Versions.UpgradesNeverCycle` | common/version/compare.go:60-68 | no chain of upgrades between recognised releases leads back to its start |
| `Versions.UpgradesCycleIff` | common/version/compare.go:60-68 | within any set of versions some chain of upgrades leads back to its start if and only if a non-dev version is offered a dev build, or an unrecognised non-dev version stands, as a string, between two recognised non-dev ones that do not compare the same way |
| `Versions.TwistedUpgradesCycle` | common/version/compare.go:43-68 | every such triple of releases whose recognised two differ is a circle of upgrades |
| `Versions.MixedVersionsCycle` | common/version/compare.go:43-68 | across the two classes three versions each upgrade to the next in a circle |
| `Versions.DevBuildsAsUpgrades` | common/version/compare.go:60-68 | a recognised dev build is offered exactly to releases that compare older, despite the rule in the comment |

## Left out

- Network: cloning, fetching, checking out and resolving references. Whether the remote can be reached when
  pushing is an input.
- Files on disk, file modes, disk errors, and paths that are a file in one tree and a directory in another.
- Repositories.RebaseIsThreeWayMerge: about branches without merges of their own; for a branch with merges the contracts of the methods and the results on what the walks list speak, not the outcome of the replay.
- Repositories.Repository.Push: no concurrent pushes.
- JSON and BSON, but for the rounding of dates. How a pull-request record decodes is a parameter of the model,
  sessions and locks are typed values, and undecodable ones, empty keys and missing buckets do not occur.
- Errors returned by scan callbacks, which end a scan early.
- PRIndex.PRStorage.GetPRByIndex: its contract is for a lookup with nobody else at work; interleaved lookups are the subject of `SplitLookupIsScan` and `RunKeepsSound`.
- The number index as a unique lookup: it is last-writer-wins, and no more is claimed for it.
- Keys.MongoScanPrefix: keys are any bytes, although Mongo stores valid UTF-8 only; for the prefixes the code builds, which end in a colon, this makes no difference.
- Sessions.RunSimulatesMongo: operations do not overlap in a run, although it may be cut after any transaction; overlapping puts, refreshes and deletes of one session are the subject of `PutRaceDanglesIff` and `RefreshRaceRevivesIff`.
- Mongo's own `PutPRWithIndex` makes three writes; of Mongo's pull-request code only the lookup is modelled.
- SyncLocks.AtMostOneLease: assumes clock readings that never run ahead of real time; a slow clock is allowed.
- The regular-expression and `path.Match` engines are parameters; the cache's mutex makes each lookup one step.
- `UpdateConfig` of the pool: a pool keeps its configuration. Tasks that panic, and the wait group's own rules.
- Debouncer.LatestEventIsDelivered: delivery means the hand-over to the pool's channel; what becomes of a task there is `WorkerPool`. Delays are not modelled: a running timer may fire at any moment.
- The consumer's event loop is a single on/off flag; when the event bus closes the channel is not modelled.
- WriterActor.WritesInOrderAndAcknowledged: a panic in a request is answered, but a panic of the actor itself, its three restarts and giving up are not modelled; writing an issue link is one write although it makes two puts. A request that fails or panics may or may not have written.
- Approvals.GetApprovals: the two results are sets, so the order in which names are listed is left open.
- The 64-bit range of dates in `parseVersion`, which eight characters cannot leave.
- The remaining code: handlers, bots, notifiers, hooks, REST wrappers, authentication, configuration, the
  queue and stale managers, the syncer, the event bus, self-update and templates.
