# Gitlet repository state machine in Dafny

This project models the core of Gitlet, a small version-control system: the repository commands of
`gitlet/Repository.java` (init, add, commit, rm, find, log, the two single-file checkouts,
checkout of a branch, branch, rm_branch) together with the classes they use, `Commit`,
`StagingArea` and `Blob`.

## Structure

State lives where the program keeps it:

- **`Gitlet.Repository`** is a class. Its fields are:
  - `initialized`: whether `.gitlet` exists.
  - `blobs`: the blobs directory, as a map from id to `Blob`.
  - `commits`: the commits directory, as a map from id to `CommitData`.
  - `branches`: the branches directory, as a map from name to commit id.
  - `head` and `curBranch`.
  - `stagingArea`: the index, a `Staging.StagingArea` object.
  - `cwd`: the working directory, as a map from plain file name to content.
- **`Repository.Valid()`** is the invariant every command keeps:
  - refs name stored commits;
  - every stored commit sits under its own id;
  - parents and tracked blobs are stored;
  - the blob store is content-addressed.
- **`Staging.StagingArea`** is a class whose `added` and `removed` maps the methods update in place.
- **`Commits.Commit`** is a class: the object `init` and `commit` build and then edit
  (`setFiles`, `addFile`, `removeFile`).
- **`Commits.CommitData`** is the value the commit store keeps. Because the store holds values, the
  copying of `getFiles`/`setFiles` holds by construction: editing a new commit never alters a stored one.
- **`Blobs.Blob`** is an immutable value.

Each command returns an **`Outcome`**:

- one constructor per message the code prints;
- `Crash` where a Java exception escapes.

A crash happens when the command reads a working file that does not exist. This happens in commit,
whose `addFile` reads every staged name, and in rm, whose `markForRemoval` reads the file.

Loops stay loops: commit's addFile and removeFile loops, find's scan, log's walk, and the two loops
of checkoutBranch. Each is proved against a reference function in `RepositorySpec`:

- `CommittedFiles` and `Overlay` for commit;
- `Matching` for find;
- `History` for log;
- `Reconciled`, `RefusedFiles`, `FirstPass` and `Created` for checkoutBranch.

Lemmas then state what those functions mean.

### Primitives

SHA-1, `Utils.serialize`, `Date.toString` and `SimpleDateFormat.format` are function values in
`Utils.Primitives`, given to the repository once. No proof looks inside them, and nothing assumes
that SHA-1 is free of collisions.

- A content id is `sha1([content])`.
- A commit id is `sha1([message, dateString(timestamp), serialize(files), parent or "null"])`.
- The clock is a `now: nat` parameter. The root commit uses timestamp 0.

### Behaviour modelled as the code has it

The model follows the code where it differs from what an ideal Git would do:

- `add` stages unconditionally. It never compares the file with HEAD's version.
- `commit` rejects only a missing (null) message. An empty message is accepted.
- `commit` re-hashes the working file of every added name. It does not use the staged id.
- `StagingArea.clear` empties `added` only. `removed` survives every commit, so a name removed once
  stays removed by every later commit, even after it is added again (`StaleRemovalWins`,
  `Scenarios.RestagedFileStaysRemoved`).
- Both single-file checkouts write the blob content under the blob id as the file name. The working
  file called `fileName` itself is left alone.
- `checkoutBranch` passes the working file's hash to `containsAddedFile`, which looks the hash up
  among staged file names (`GuardTestsHashAmongNames`).
- `checkoutBranch` makes the branch current but leaves `head` where it was.
- `rm` of a name that is neither staged nor tracked prints "No reason to remove the file." A name
  staged for addition is only unstaged, even when HEAD also tracks it.

## Model

| member | source | states |
|---|---|---|
| Blobs.NewBlob | gitlet/Blob.java:13-17 | a new blob holds the file's content and the hash of that content as its id |
| Blobs.GetBlob | gitlet/Blob.java:26-32 | the lookup is None exactly when no blob is stored under the id, otherwise the stored blob |
| Blobs.Save | gitlet/Blob.java:34-37 | after saving, looking up the blob's id gives back that blob |
| Blobs.SaveKeepsOthers | gitlet/Blob.java:34-37 | saving leaves the lookup of every other id unchanged |
| Blobs.SaveThenGet | gitlet/Blob.java:26-37 | a blob built from a file, saved and looked up by the content's hash, returns that content |
| Blobs.Deduplicated | gitlet/Blob.java:13-37 | two blobs of identical content, whatever their file names, have one id and occupy one store entry |
| Blobs.SaveKeepsContentAddressed | gitlet/Blob.java:34-37 | saving a blob built from a working file keeps every stored blob under the hash of its content |
| Commits.CommitData.GetFileId | gitlet/Commit.java:89-92 | the file id is present exactly when containsFile holds, and is the table's entry |
| Commits.IdDeterministic | gitlet/Commit.java:80-87 | commits agreeing on message, timestamp, table and parent field have the same id |
| Commits.NullParentCollides | gitlet/Commit.java:85 | a root commit and a commit whose parent id is the string "null" hash identical inputs |
| Commits.ToStringLayout | gitlet/Commit.java:98-112 | toString is the five lines "===", "commit id", "Date:   date", an empty line, the message |
| Commits.GetCommit | gitlet/Commit.java:66-73 | the lookup is None exactly when nothing is stored under the id, otherwise the stored commit |
| Commits.Save | gitlet/Commit.java:75-78 | after saving, looking up the commit's own id gives back that commit |
| Commits.SaveKeepsOthers | gitlet/Commit.java:75-78 | saving leaves the lookup of every other id unchanged; only a colliding id is replaced |
| Commits.Commit.constructor | gitlet/Commit.java:23-31 | message and parent as given, empty table; timestamp 0 without a parent, otherwise the current time |
| Commits.Commit.SetFiles | gitlet/Commit.java:41-43 | the table becomes the given one; the timestamp is untouched |
| Commits.Commit.RemoveFile | gitlet/Commit.java:45-47 | exactly that name leaves the table |
| Commits.Commit.AddFile | gitlet/Commit.java:50-60 | the name maps to the hash of its working file; a blob is written only when none has that id, and an existing blob is never replaced |
| Staging.StagingArea.constructor | gitlet/StagingArea.java:16-19 | both maps start empty |
| Staging.StagingArea.AddForAddition | gitlet/StagingArea.java:33-37 | added gains name to the hash of its working file; removed is untouched |
| Staging.StagingArea.MarkForRemoval | gitlet/StagingArea.java:39-43 | removed gains name to the hash of its working file; added is untouched |
| Staging.StagingArea.Clear | gitlet/StagingArea.java:49-51 | added becomes empty and removed stays exactly as it was |
| Staging.StagingArea.UnStage | gitlet/StagingArea.java:53-55 | exactly that name leaves added; removed is untouched |
| Staging.ContainsAddedFileTestsNames | gitlet/StagingArea.java:25-47 | containsAddedFile and existentForAddition are the same test on the keys of added |
| Staging.AddForAdditionTwice | gitlet/StagingArea.java:33-37 | staging an unchanged file twice leaves the index as staging it once does |
| Staging.UnStageTwice | gitlet/StagingArea.java:53-55 | unstaging twice leaves the index as unstaging once does |
| RepositorySpec.RootIdReproducible | gitlet/Repository.java:107-109 | the root commit's id depends on the primitives only, so every init produces the same one |
| RepositorySpec.MoreBlobsKeepConsistent | gitlet/Commit.java:55-59 | writing more content-addressed blobs without replacing any keeps the repository invariant |
| RepositorySpec.CommitKeepsConsistent | gitlet/Repository.java:177-187 | saving a commit whose parent is HEAD and whose blobs are stored, then moving the branch and HEAD to it, keeps the invariant even when its id collides |
| RepositorySpec.OverlayStep | gitlet/Repository.java:169-171 | one more re-hashed added name is one more table update |
| RepositorySpec.CommittedFilesEntry | gitlet/Repository.java:163-175 | a name is in the new table iff it was in HEAD's or added, and is not removed; an added name maps to its working file's hash, any other to HEAD's id |
| RepositorySpec.StaleRemovalWins | gitlet/Repository.java:169-175 | a name both added and still recorded as removed is not in the new commit |
| RepositorySpec.GrewFromViaGrewFrom | gitlet/Commit.java:55-59 | blobs written during the addFile loop come from staged working files, and the store stays content-addressed |
| RepositorySpec.HistoryIsParentChain | gitlet/Repository.java:246-253 | log's sequence starts at HEAD's commit, each entry is the stored parent of the one before, and it ends only at a root, an unstored parent or the bound |
| RepositorySpec.HistoryOfRootedChain | gitlet/Repository.java:246-253 | with enough bound, log lists exactly the commits of a stored chain ending at a root, newest first |
| RepositorySpec.DistinctIdsFit | gitlet/Repository.java:246-253 | a chain without repeated ids is no longer than the store, so one entry per stored commit is enough bound for it |
| RepositorySpec.FirstPassStep | gitlet/Repository.java:357-383 | each working file the first loop handles is deleted (untracked), overwritten (differs and its hash is a staged name) or left alone |
| RepositorySpec.CreatedStep | gitlet/Repository.java:386-396 | each target name the second loop handles is created exactly when the first loop did not see it |
| RepositorySpec.PassesReconcile | gitlet/Repository.java:357-396 | the two loops together yield the reconciled working directory |
| RepositorySpec.ReconciledMatchesTarget | gitlet/Repository.java:357-396 | afterwards the working directory holds exactly the target's names; unrefused ones have the target's content, refused ones keep their old content |
| RepositorySpec.GuardTestsHashAmongNames | gitlet/Repository.java:369-379 | a file that differs from the target is overwritten iff its hash equals some staged name, otherwise refused |
| Gitlet.Repository.Init | gitlet/Repository.java:92-124 | an existing repository is unchanged; otherwise exactly one commit, the root, with HEAD and master at it, master current, nothing staged |
| Gitlet.Repository.Add | gitlet/Repository.java:126-141 | a missing file changes nothing; otherwise added maps the name to its content's hash whatever HEAD holds, and removed is untouched |
| Gitlet.Repository.Commit | gitlet/Repository.java:143-193 | a null message or an empty index changes nothing; a non-readable staged file crashes after writing some blobs; otherwise HEAD's table with added names re-hashed and removed names dropped is saved with HEAD as parent, branch and HEAD move to it, added is emptied and removed kept |
| Gitlet.Repository.CommitStaged | gitlet/Repository.java:157-192 | the same, for the part of commit after its guards |
| Gitlet.Repository.Advance | gitlet/Repository.java:177-191 | the new commit is stored under its id, the current branch and HEAD name it, added is emptied, and the invariant holds |
| Gitlet.BuildCommit | gitlet/Repository.java:157-175 | the built table is CommittedFiles, and it crashes exactly when a staged name has no working file |
| Gitlet.AddFiles | gitlet/Repository.java:169-171 | in any order, the table is overlaid with every added name's hash, each of their blobs is stored, and a missing file stops the loop |
| Gitlet.RemoveFiles | gitlet/Repository.java:173-175 | every removed name leaves the table |
| Gitlet.Repository.Rm | gitlet/Repository.java:195-217 | a staged name is only unstaged; else a name HEAD tracks is recorded for removal and deleted from the working directory; else nothing changes |
| Gitlet.Repository.Find | gitlet/Repository.java:219-240 | the reported ids are exactly the stored ids whose message matches, none twice; the failure message iff there are none |
| Gitlet.Repository.Log | gitlet/Repository.java:242-262 | the printed blocks are the toString of each commit of History from HEAD |
| Gitlet.Walk | gitlet/Repository.java:246-253 | the while loop visits exactly the commits of History from HEAD, in order |
| RepositorySpec.Render | gitlet/Repository.java:250 | one printed block per visited commit, each that commit's toString, in the same order |
| Gitlet.Repository.CheckoutFile | gitlet/Repository.java:286-305 | an untracked name changes nothing; otherwise the working directory gains the blob's content under the blob id, whose hash it is |
| Gitlet.Repository.CheckoutCommitFile | gitlet/Repository.java:307-328 | the same from the named commit; an unknown commit id changes nothing |
| Gitlet.Repository.RestoreFile | gitlet/Repository.java:293-304 | the shared restoring step of both single-file checkouts |
| Gitlet.Repository.CheckoutBranch | gitlet/Repository.java:330-406 | an unknown branch or one at HEAD changes nothing; otherwise the working directory becomes Reconciled, the refused files are reported, the branch becomes current, added is emptied, HEAD stays |
| Gitlet.Repository.SwitchBranch | gitlet/Repository.java:348-405 | the same, for the part of checkoutBranch after its guards |
| Gitlet.Repository.SwitchTo | gitlet/Repository.java:399-405 | the working directory becomes the reconciled one, the branch becomes current, added is emptied and removed kept, and the invariant holds |
| Gitlet.Reconcile | gitlet/Repository.java:350-396 | the two loops yield Reconciled and the refused set |
| Gitlet.OverwriteOrDelete | gitlet/Repository.java:357-383 | the first loop yields FirstPass over every working file and records every working file in cwdFilesMap |
| Gitlet.CreateMissing | gitlet/Repository.java:386-396 | the second loop adds exactly the target names the first loop did not see |
| Gitlet.Repository.Branch | gitlet/Repository.java:408-421 | a taken name changes nothing; otherwise the name is added at HEAD and every other ref is unchanged |
| Gitlet.Repository.RmBranch | gitlet/Repository.java:423-442 | only an existing, non-current name is removed; every other ref is unchanged |
| Scenarios.FirstCommit | gitlet/Repository.java:92-193 | init, add and commit make HEAD track the file under its content's hash and leave the index empty |
| Scenarios.RemoveAndCommit | gitlet/Repository.java:143-217 | rm then commit drops the file from HEAD and from the working directory, and keeps its removal record |
| Scenarios.RestagedFileStaysRemoved | gitlet/StagingArea.java:49-51 | re-creating, adding and committing a file removed earlier still leaves it out of HEAD |

## Left out

- Persistence and serialization: the files under `.gitlet`, `writeObject`/`readObject`, saving the
  index, and `backup()` reading the state back. The state is modelled in memory only, so the unsaved
  index after `rm`'s unstage and after checkoutBranch's `clear`, and the two ways CURRENT_BRANCH is
  written and read, do not arise.
- `Main.java`: argument parsing and usage messages.
- `Utils.java` is not part of this model. SHA-1, serialize and the date conversions are opaque
  function values.
  - `Utils.sha1(fileInCWD)` in checkoutBranch is taken as the hash of that file's content.
  - `restrictedDelete` is taken as removing the entry, both for a working file and for rm_branch's
    branch file.
  - `plainFilenamesIn` is taken as the set of keys of the map it lists.
- Printing: each command returns its message as an `Outcome`, and find and log return the lines they
  print. `System.exit` in `validateInitialized` is the `NotInitialized` outcome.
- Gitlet.Repository.Find: the order in which ids are reported follows the directory listing. The
  model fixes the set and that no id repeats, not the order.
- Gitlet.Repository.Log: the walk is bounded by the number of stored commits. Commit ids come from
  an uninterpreted hash, so a collision could make the parent links cycle, where the code would loop
  forever. `DistinctIdsFit` and `HistoryOfRootedChain` show that the bound never cuts a chain
  without repeated ids.
- Gitlet.Repository.Log: after the root, the code's `getCommit(null)` would throw. The model stops
  at a missing parent.
- `global_log`, `status`, `reset` and `merge` are not modelled. The last three are empty in the
  source.
- Working files are plain names in one flat directory. There are no subdirectories and no file
  metadata.
- `Blob.fileName` is kept as data, but nothing in the program reads it.
- Timestamps are an abstract `nat`. Dates are formatted by a function value.
- The Java exceptions the model does not reach are left out: the `Valid()` invariant rules out a
  dangling HEAD, an unstored branch target and an unstored blob.
