/**
 * gitlet/Repository.java: the repository state machine. The on-disk layout becomes fields: the
 * blobs and commits directories are stores keyed by id, the branches directory is a map from branch
 * name to commit id, HEAD and the current-branch record are strings, the index is the StagingArea
 * object, and the working directory is a map from plain file name to content.
 */
module Gitlet {
  import opened Wrappers
  import opened Utils
  import Blobs
  import Commits
  import opened Staging
  import opened RepositorySpec

  /** How a command ends: one constructor per message Repository.java prints, plus an escaped exception. */
  datatype Outcome =
    | Done                 // the command ran to its end
    | NotInitialized       // validateInitialized: "GITLET_DIR does not exist", then System.exit(0)
    | AlreadyInitialized   // init: "GITLET_DIR already exists"
    | FileDoesNotExist     // add: "File does not exist."
    | NoMessage            // commit: "Please enter a commit message."
    | NoChanges            // commit: "No changes added to the commit."
    | NoReasonToRemove     // rm: "No reason to remove the file."
    | NoCommitFound        // find: "Found no commit with that message."
    | FileNotInCommit      // checkout: "File does not exist in that commit."
    | NoSuchCommit         // checkout: "No commit with that id exists."
    | NoSuchBranch         // checkoutBranch: "No such branch exists."
    | AlreadyOnBranch      // checkoutBranch: "No need to checkout the current branch."
    | BranchExists         // branch: "A branch with that name already exists."
    | BranchDoesNotExist   // rm_branch: "A branch with that name does not exist."
    | CannotRemoveCurrent  // rm_branch: "Cannot remove the current branch."
    | Crash                // an exception escapes: the command read a working file that is absent

  class Repository {
    const prims: Primitives
    /** Whether the .gitlet directory exists. */
    var initialized: bool
    var blobs: Blobs.BlobStore
    var commits: Commits.CommitStore
    var branches: map<string, string>
    var head: string
    var curBranch: string
    var stagingArea: StagingArea
    var cwd: map<string, string>

    /** What every command keeps: refs name stored commits, stores are keyed by content hash,
     *  parents are stored, and every tracked blob id has its blob. */
    ghost predicate Valid()
      reads this, stagingArea
    {
      && (!initialized ==>
            && blobs == map[] && commits == map[] && branches == map[]
            && stagingArea.added == map[] && stagingArea.removed == map[])
      && (initialized ==> Consistent(prims, blobs, commits, branches, head, curBranch))
    }

    /** A repository object before `init`, over a given working directory. */
    constructor (prims: Primitives, cwd: map<string, string>)
      ensures Valid() && !initialized && this.cwd == cwd
      ensures this.prims == prims
    {
      this.prims := prims;
      initialized := false;
      blobs := map[];
      commits := map[];
      branches := map[];
      head := "";
      curBranch := "";
      stagingArea := new StagingArea();
      this.cwd := cwd;
    }

    /**
     * init: on a fresh directory, one commit (the root), HEAD and master at it, master current,
     * an empty index. The clock reading `now` is overwritten by the epoch for the root.
     */
    method Init(now: nat) returns (outcome: Outcome)
      requires Valid()
      modifies this
      ensures Valid()
      ensures old(initialized) ==> outcome == AlreadyInitialized && unchanged(this)
      ensures !old(initialized) ==>
                && outcome == Done && initialized
                && commits == map[Root().Id(prims) := Root()]
                && head == Root().Id(prims)
                && branches == map["master" := head] && curBranch == "master"
                && blobs == map[] && cwd == old(cwd)
                && fresh(stagingArea) && stagingArea.added == map[] && stagingArea.removed == map[]
    {
      if initialized {
        return AlreadyInitialized;
      }
      stagingArea := new StagingArea();
      var initialCommit := new Commits.Commit("initial commit", None, now);
      var initialCommitId := initialCommit.GetId(prims);
      commits := Commits.Save(prims, commits, initialCommit.Data());
      head := initialCommitId;
      branches := branches["master" := initialCommitId];
      curBranch := "master";
      initialized := true;
      outcome := Done;
    }

    /** add: stages the name with its content's hash whether or not HEAD already has that content. */
    method Add(fileName: string) returns (outcome: Outcome)
      requires Valid()
      modifies stagingArea
      ensures Valid()
      ensures outcome == (if !initialized then NotInitialized else if fileName !in cwd then FileDoesNotExist else Done)
      ensures outcome == Done ==> stagingArea.added == old(stagingArea.added)[fileName := ContentId(prims, cwd[fileName])]
      ensures outcome != Done ==> stagingArea.added == old(stagingArea.added)
      ensures stagingArea.removed == old(stagingArea.removed)
    {
      if !initialized {
        return NotInitialized;
      }
      if fileName !in cwd {
        return FileDoesNotExist;
      }
      stagingArea.AddForAddition(prims, cwd, fileName);
      outcome := Done;
    }

    /**
     * commit: a new commit whose parent is HEAD and whose table is HEAD's, with every added name
     * re-hashed from the working directory and every removed name dropped; the current branch and
     * HEAD move to it; `added` is cleared and `removed` kept. A staged name missing from the working
     * directory makes addFile throw partway, after the blobs of the names it handled first are written.
     */
    method Commit(message: Option<string>, now: nat) returns (outcome: Outcome)
      requires Valid()
      modifies this, stagingArea
      ensures Valid()
      ensures stagingArea == old(stagingArea) && initialized == old(initialized)
      ensures cwd == old(cwd) && curBranch == old(curBranch)
      ensures outcome ==
                if !initialized then NotInitialized
                else if message.None? then NoMessage
                else if old(stagingArea.added) == map[] && old(stagingArea.removed) == map[] then NoChanges
                else if !(old(stagingArea.added).Keys <= cwd.Keys) then Crash
                else Done
      ensures stagingArea.removed == old(stagingArea.removed)
      ensures outcome != Done ==>
                commits == old(commits) && branches == old(branches) && head == old(head)
                && stagingArea.added == old(stagingArea.added)
      ensures outcome != Done && outcome != Crash ==> blobs == old(blobs)
      ensures outcome == Crash ==> GrewFrom(prims, old(blobs), blobs, old(stagingArea.added).Keys, cwd)
      ensures outcome == Done ==>
                var c := Commits.CommitData(message.value, now,
                           CommittedFiles(prims, old(commits)[old(head)].files, old(stagingArea.added).Keys,
                                          old(stagingArea.removed).Keys, cwd),
                           Some(old(head)));
                && commits == old(commits)[c.Id(prims) := c]
                && head == c.Id(prims)
                && branches == old(branches)[curBranch := head]
                && stagingArea.added == map[]
                && GrewFrom(prims, old(blobs), blobs, old(stagingArea.added).Keys, cwd)
                && (forall f :: f in old(stagingArea.added) ==> ContentId(prims, cwd[f]) in blobs)
    {
      if !initialized {
        return NotInitialized;
      }
      if message.None? {
        return NoMessage;
      }
      if stagingArea.added == map[] && stagingArea.removed == map[] {
        return NoChanges;
      }
      outcome := CommitStaged(message.value, now);
    }

    /** commit past its guards: build the new commit from HEAD and the index, then advance to it. */
    method CommitStaged(message: string, now: nat) returns (outcome: Outcome)
      requires Valid() && initialized
      modifies this, stagingArea
      ensures Valid()
      ensures stagingArea == old(stagingArea) && initialized
      ensures cwd == old(cwd) && curBranch == old(curBranch)
      ensures outcome == if old(stagingArea.added).Keys <= cwd.Keys then Done else Crash
      ensures stagingArea.removed == old(stagingArea.removed)
      ensures GrewFrom(prims, old(blobs), blobs, old(stagingArea.added).Keys, cwd)
      ensures outcome == Crash ==>
                commits == old(commits) && branches == old(branches) && head == old(head)
                && stagingArea.added == old(stagingArea.added)
      ensures outcome == Done ==>
                var c := Commits.CommitData(message, now,
                           CommittedFiles(prims, old(commits)[old(head)].files, old(stagingArea.added).Keys,
                                          old(stagingArea.removed).Keys, cwd),
                           Some(old(head)));
                && commits == old(commits)[c.Id(prims) := c]
                && head == c.Id(prims)
                && branches == old(branches)[curBranch := head]
                && stagingArea.added == map[]
                && (forall f :: f in old(stagingArea.added) ==> ContentId(prims, cwd[f]) in blobs)
    {
      var parent := commits[head];
      var parentId := parent.Id(prims);
      var store, crashed, newCommit := BuildCommit(prims, message, parentId, now, parent.files,
                                                   stagingArea.added.Keys, stagingArea.removed.Keys, cwd, blobs);
      if crashed {
        MoreBlobsKeepConsistent(prims, blobs, store, commits, branches, head, curBranch);
        blobs := store;
        return Crash;
      }
      CommitKeepsConsistent(prims, blobs, commits, branches, head, curBranch, newCommit, store,
                            Commits.Save(prims, commits, newCommit), branches[curBranch := newCommit.Id(prims)], newCommit.Id(prims));
      Advance(store, newCommit);
      outcome := Done;
    }

    /** The end of commit: the blobs written, the new commit saved, the current branch and HEAD moved to it, the index cleared. */
    method Advance(store: Blobs.BlobStore, c: Commits.CommitData)
      requires initialized
      requires Consistent(prims, store, Commits.Save(prims, commits, c), branches[curBranch := c.Id(prims)], c.Id(prims), curBranch)
      modifies this, stagingArea
      ensures Valid()
      ensures stagingArea == old(stagingArea) && initialized && blobs == store
      ensures cwd == old(cwd) && curBranch == old(curBranch)
      ensures commits == old(commits)[c.Id(prims) := c]
      ensures head == c.Id(prims) && branches == old(branches)[curBranch := head]
      ensures stagingArea.added == map[] && stagingArea.removed == old(stagingArea.removed)
    {
      stagingArea.Clear();
      var newCommitId := c.Id(prims);
      blobs := store;
      commits := Commits.Save(prims, commits, c);
      branches := branches[curBranch := newCommitId];
      head := newCommitId;
    }
    /**
     * rm: a name staged for addition is only unstaged; otherwise a name HEAD tracks is recorded for
     * removal (with the hash of its working file, which must be readable) and deleted from the
     * working directory; otherwise nothing changes.
     */
    method Rm(fileName: string) returns (outcome: Outcome)
      requires Valid()
      modifies this`cwd, stagingArea
      ensures Valid()
      ensures outcome ==
                if !initialized then NotInitialized
                else if fileName in old(stagingArea.added) then Done
                else if fileName !in commits[head].files then NoReasonToRemove
                else if fileName !in old(cwd) then Crash
                else Done
      ensures outcome == Done && fileName in old(stagingArea.added) ==>
                && stagingArea.added == old(stagingArea.added) - {fileName}
                && stagingArea.removed == old(stagingArea.removed) && cwd == old(cwd)
      ensures outcome == Done && fileName !in old(stagingArea.added) ==>
                && stagingArea.added == old(stagingArea.added)
                && stagingArea.removed == old(stagingArea.removed)[fileName := ContentId(prims, old(cwd)[fileName])]
                && cwd == old(cwd) - {fileName}
      ensures outcome != Done ==>
                && stagingArea.added == old(stagingArea.added)
                && stagingArea.removed == old(stagingArea.removed) && cwd == old(cwd)
    {
      if !initialized {
        return NotInitialized;
      }
      if stagingArea.ExistentForAddition(fileName) {
        stagingArea.UnStage(fileName);
        return Done;
      }
      var headCommit := commits[head];
      if !headCommit.ContainsFile(fileName) {
        return NoReasonToRemove;
      }
      if fileName !in cwd {
        return Crash;
      }
      stagingArea.MarkForRemoval(prims, cwd, fileName);
      cwd := cwd - {fileName};
      outcome := Done;
    }

    /**
     * find: walks the stored commit ids in whatever order the directory lists them and reports each
     * one whose message is exactly `message`, or the failure message when there is none.
     */
    method Find(message: string) returns (outcome: Outcome, found: seq<string>)
      ensures outcome ==
                if !initialized then NotInitialized
                else if Matching(commits, message) == {} then NoCommitFound
                else Done
      ensures !initialized ==> found == []
      ensures initialized ==> (forall id :: id in found <==> id in Matching(commits, message))
      ensures forall i, j :: 0 <= i < j < |found| ==> found[i] != found[j]
    {
      if !initialized {
        return NotInitialized, [];
      }
      var foundCommits := false;
      found := [];
      var pending := commits.Keys;
      ghost var listed: set<string> := {};
      while pending != {}
        invariant pending + listed == commits.Keys && pending !! listed
        invariant forall id :: id in found <==> id in listed && commits[id].message == message
        invariant forall i, j :: 0 <= i < j < |found| ==> found[i] != found[j]
        invariant foundCommits <==> found != []
        decreases pending
      {
        var commitId :| commitId in pending;
        var commit := Commits.GetCommit(commits, commitId).value;
        if commit.message == message {
          found := found + [commitId];
          foundCommits := true;
        }
        listed := listed + {commitId};
        pending := pending - {commitId};
      }
      if !foundCommits {
        assert Matching(commits, message) == {} by {
          forall id | id in commits ensures !(id in commits && commits[id].message == message) {
            assert id in listed;
          }
        }
        return NoCommitFound, found;
      }
      assert found[0] in Matching(commits, message);
      outcome := Done;
    }

    /**
     * log: prints HEAD's commit and then each parent in turn, stopping at a root or at a parent id
     * with no stored commit, and after at most one entry per stored commit.
     */
    method Log() returns (outcome: Outcome, entries: seq<string>)
      ensures outcome == if initialized then Done else NotInitialized
      ensures !initialized ==> entries == []
      ensures initialized ==>
                var h := History(commits, head, |commits|);
                |entries| == |h| && forall i :: 0 <= i < |h| ==> entries[i] == h[i].ToString(prims)
    {
      if !initialized {
        return NotInitialized, [];
      }
      var visited := Walk(commits, head);
      entries := Render(prims, visited);
      outcome := Done;
    }

    /**
     * checkout -- [file name]: HEAD's blob for the name is written into the working directory under
     * the blob's id as file name; the working file called `fileName` is left as it was.
     */
    method CheckoutFile(fileName: string) returns (outcome: Outcome)
      requires Valid()
      modifies this`cwd
      ensures Valid()
      ensures outcome ==
                if !initialized then NotInitialized
                else if !commits[head].ContainsFile(fileName) then FileNotInCommit
                else Done
      ensures outcome != Done ==> cwd == old(cwd)
      ensures outcome == Done ==>
                var fileId := commits[head].files[fileName];
                && fileId in blobs
                && cwd == old(cwd)[fileId := blobs[fileId].content]
                && ContentId(prims, cwd[fileId]) == fileId
    {
      if !initialized {
        return NotInitialized;
      }
      outcome := RestoreFile(commits[head], fileName);
    }

    /** checkout [commit id] -- [file name]: as the HEAD form, from the commit stored under `commitId`. */
    method CheckoutCommitFile(commitId: string, fileName: string) returns (outcome: Outcome)
      requires Valid()
      modifies this`cwd
      ensures Valid()
      ensures outcome ==
                if !initialized then NotInitialized
                else if commitId !in commits then NoSuchCommit
                else if !commits[commitId].ContainsFile(fileName) then FileNotInCommit
                else Done
      ensures outcome != Done ==> cwd == old(cwd)
      ensures outcome == Done ==>
                var fileId := commits[commitId].files[fileName];
                && fileId in blobs
                && cwd == old(cwd)[fileId := blobs[fileId].content]
                && ContentId(prims, cwd[fileId]) == fileId
    {
      if !initialized {
        return NotInitialized;
      }
      var commit := Commits.GetCommit(commits, commitId);
      if commit.None? {
        return NoSuchCommit;
      }
      outcome := RestoreFile(commit.value, fileName);
    }

    /** The part both single-file checkouts share, for a stored commit. */
    method RestoreFile(commit: Commits.CommitData, fileName: string) returns (outcome: Outcome)
      requires Valid() && initialized && commit in commits.Values
      modifies this`cwd
      ensures Valid()
      ensures outcome == if commit.ContainsFile(fileName) then Done else FileNotInCommit
      ensures outcome != Done ==> cwd == old(cwd)
      ensures outcome == Done ==>
                var fileId := commit.files[fileName];
                && fileId in blobs
                && cwd == old(cwd)[fileId := blobs[fileId].content]
                && ContentId(prims, cwd[fileId]) == fileId
    {
      if !commit.ContainsFile(fileName) {
        return FileNotInCommit;
      }
      var fileId := commit.GetFileId(fileName).value;
      var fileContent := Blobs.GetBlob(blobs, fileId).value.content;
      cwd := cwd[fileId := fileContent];
      outcome := Done;
    }

    /**
     * checkoutBranch: after the two guards, reconciles the working directory with the branch's
     * commit, makes the branch current and clears `added`. HEAD itself does not move.
     * `refused` holds the files the untracked-file message is printed for.
     */
    method CheckoutBranch(branchName: string) returns (outcome: Outcome, refused: set<string>)
      requires Valid()
      modifies this`cwd, this`curBranch, stagingArea
      ensures Valid()
      ensures outcome ==
                if !initialized then NotInitialized
                else if branchName !in branches then NoSuchBranch
                else if branches[branchName] == head then AlreadyOnBranch
                else Done
      ensures stagingArea.removed == old(stagingArea.removed)
      ensures outcome != Done ==>
                && cwd == old(cwd) && curBranch == old(curBranch)
                && stagingArea.added == old(stagingArea.added) && refused == {}
      ensures outcome == Done ==>
                var target := commits[branches[branchName]].files;
                && (forall f :: f in target ==> target[f] in blobs)
                && cwd == Reconciled(prims, old(cwd), target, old(stagingArea.added).Keys, blobs)
                && refused == RefusedFiles(prims, old(cwd), target, old(stagingArea.added).Keys)
                && curBranch == branchName && stagingArea.added == map[]
    {
      if !initialized {
        return NotInitialized, {};
      }
      if branchName !in branches {
        return NoSuchBranch, {};
      }
      var branchId := branches[branchName];
      if head == branchId {
        return AlreadyOnBranch, {};
      }
      refused := SwitchBranch(branchName);
      outcome := Done;
    }

    /** checkoutBranch past its guards: reconcile the working directory with the branch's commit. */
    method SwitchBranch(branchName: string) returns (refused: set<string>)
      requires Valid() && initialized && branchName in branches
      modifies this`cwd, this`curBranch, stagingArea
      ensures Valid()
      ensures stagingArea.removed == old(stagingArea.removed)
      ensures var target := commits[branches[branchName]].files;
              && (forall f :: f in target ==> target[f] in blobs)
              && cwd == Reconciled(prims, old(cwd), target, old(stagingArea.added).Keys, blobs)
              && refused == RefusedFiles(prims, old(cwd), target, old(stagingArea.added).Keys)
              && curBranch == branchName && stagingArea.added == map[]
    {
      var branchHead := commits[branches[branchName]];
      var reconciled;
      reconciled, refused := Reconcile(prims, cwd, branchHead.files, stagingArea.added.Keys, blobs);
      SwitchTo(branchName, reconciled);
    }

    /** The end of checkoutBranch: the working directory rewritten, the branch made current, the index cleared. */
    method SwitchTo(branchName: string, reconciled: map<string, string>)
      requires initialized && Consistent(prims, blobs, commits, branches, head, branchName)
      modifies this`cwd, this`curBranch, stagingArea
      ensures Valid()
      ensures cwd == reconciled && curBranch == branchName
      ensures stagingArea.added == map[] && stagingArea.removed == old(stagingArea.removed)
    {
      stagingArea.Clear();
      cwd, curBranch := reconciled, branchName;
    }

    /** branch: a new ref at HEAD, unless the name is taken. */
    method Branch(branchName: string) returns (outcome: Outcome)
      requires Valid()
      modifies this`branches
      ensures Valid()
      ensures outcome ==
                if !initialized then NotInitialized
                else if branchName in old(branches) then BranchExists
                else Done
      ensures branches == if outcome == Done then old(branches)[branchName := head] else old(branches)
    {
      if !initialized {
        return NotInitialized;
      }
      if branchName in branches {
        return BranchExists;
      }
      branches := branches[branchName := head];
      outcome := Done;
    }

    /** rm_branch: deletes an existing ref other than the current branch's. */
    method RmBranch(branchName: string) returns (outcome: Outcome)
      requires Valid()
      modifies this`branches
      ensures Valid()
      ensures outcome ==
                if !initialized then NotInitialized
                else if branchName !in old(branches) then BranchDoesNotExist
                else if branchName == curBranch then CannotRemoveCurrent
                else Done
      ensures branches == if outcome == Done then old(branches) - {branchName} else old(branches)
    {
      if !initialized {
        return NotInitialized;
      }
      if branchName !in branches {
        return BranchDoesNotExist;
      }
      if curBranch == branchName {
        return CannotRemoveCurrent;
      }
      branches := branches - {branchName};
      outcome := Done;
    }
  }

  /**
   * The construction part of commit: a Commit object with the parent's table copied in, the added
   * names applied, the removed names dropped; what `save` then writes is its serialized value.
   */
  method BuildCommit(p: Primitives, message: string, parentId: string, now: nat, parentFiles: map<string, string>,
                     added: set<string>, removed: set<string>, cwd: map<string, string>, blobs: Blobs.BlobStore)
    returns (store: Blobs.BlobStore, crashed: bool, data: Commits.CommitData)
    requires Blobs.ContentAddressed(p, blobs)
    requires forall f :: f in parentFiles ==> parentFiles[f] in blobs
    ensures crashed <==> !(added <= cwd.Keys)
    ensures GrewFrom(p, blobs, store, added, cwd)
    ensures Blobs.ContentAddressed(p, store)
    ensures !crashed ==> data == Commits.CommitData(message, now, CommittedFiles(p, parentFiles, added, removed, cwd), Some(parentId))
    ensures !crashed ==> forall f :: f in added ==> ContentId(p, cwd[f]) in store
    ensures !crashed ==> forall f :: f in data.files ==> data.files[f] in store
  {
    var newCommit := new Commits.Commit(message, Some(parentId), now);
    newCommit.SetFiles(parentFiles);
    store, crashed := AddFiles(p, newCommit, added, cwd, blobs);
    data := newCommit.Data();
    if crashed {
      return;
    }
    RemoveFiles(newCommit, removed);
    data := newCommit.Data();
    assert data.files == CommittedFiles(p, parentFiles, added, removed, cwd);
    forall f | f in data.files ensures data.files[f] in store {
      CommittedFilesEntry(p, parentFiles, added, removed, cwd, f);
    }
  }

  /** The addFile loop of commit, over the names staged for addition, in whatever order the HashMap yields. */
  method AddFiles(p: Primitives, newCommit: Commits.Commit, names: set<string>, cwd: map<string, string>,
                  blobs: Blobs.BlobStore) returns (store: Blobs.BlobStore, crashed: bool)
    requires Blobs.ContentAddressed(p, blobs)
    modifies newCommit
    ensures crashed <==> !(names <= cwd.Keys)
    ensures newCommit.timestamp == old(newCommit.timestamp)
    ensures GrewFrom(p, blobs, store, names, cwd)
    ensures Blobs.ContentAddressed(p, store)
    ensures !crashed ==> newCommit.files == Overlay(p, old(newCommit.files), names, cwd)
    ensures !crashed ==> forall f :: f in names ==> ContentId(p, cwd[f]) in store
  {
    store := blobs;
    crashed := false;
    ghost var origin: map<string, string> := map[];
    ghost var visited: set<string> := {};
    var pending := names;
    while pending != {}
      invariant visited + pending == names && visited !! pending
      invariant visited <= cwd.Keys
      invariant newCommit.files == Overlay(p, old(newCommit.files), visited, cwd)
      invariant newCommit.timestamp == old(newCommit.timestamp)
      invariant GrewFromVia(p, blobs, store, names, cwd, origin)
      invariant forall f :: f in visited ==> ContentId(p, cwd[f]) in store
      decreases pending
    {
      var fileName :| fileName in pending;
      if fileName !in cwd {
        crashed := true;
        GrewFromViaGrewFrom(p, blobs, store, names, cwd, origin);
        return;
      }
      ghost var isNew := ContentId(p, cwd[fileName]) !in store;
      store := newCommit.AddFile(p, cwd, store, fileName);
      if isNew {
        origin := origin[ContentId(p, cwd[fileName]) := fileName];
      }
      OverlayStep(p, old(newCommit.files), visited, cwd, fileName);
      visited := visited + {fileName};
      pending := pending - {fileName};
    }
    GrewFromViaGrewFrom(p, blobs, store, names, cwd, origin);
  }

  /** The removeFile loop of commit, over the names staged for removal. */
  method RemoveFiles(newCommit: Commits.Commit, names: set<string>)
    modifies newCommit
    ensures newCommit.files == old(newCommit.files) - names
    ensures newCommit.timestamp == old(newCommit.timestamp)
  {
    var pending := names;
    while pending != {}
      invariant pending <= names
      invariant newCommit.files == old(newCommit.files) - (names - pending)
      invariant newCommit.timestamp == old(newCommit.timestamp)
      decreases pending
    {
      var fileName :| fileName in pending;
      newCommit.RemoveFile(fileName);
      pending := pending - {fileName};
    }
  }
  /**
   * The two loops of checkoutBranch on the working directory: the first over the working files
   * (recording each name in `cwdFilesMap`), the second creating the target's names the first did
   * not see.
   */
  method Reconcile(p: Primitives, cwd: map<string, string>, tracked: map<string, string>,
                   staged: set<string>, blobs: Blobs.BlobStore) returns (cwd': map<string, string>, refused: set<string>)
    requires forall f :: f in tracked ==> tracked[f] in blobs
    ensures cwd' == Reconciled(p, cwd, tracked, staged, blobs)
    ensures refused == RefusedFiles(p, cwd, tracked, staged)
  {
    var cwdFilesMap: map<string, int>;
    cwd', cwdFilesMap, refused := OverwriteOrDelete(p, cwd, tracked, staged, blobs);
    cwd' := CreateMissing(tracked, blobs, cwdFilesMap, cwd');
    PassesReconcile(p, cwd, tracked, staged, blobs);
  }

  /** The first loop of checkoutBranch. */
  method OverwriteOrDelete(p: Primitives, cwd: map<string, string>, tracked: map<string, string>,
                           staged: set<string>, blobs: Blobs.BlobStore)
    returns (out: map<string, string>, cwdFilesMap: map<string, int>, refused: set<string>)
    requires forall f :: f in tracked ==> tracked[f] in blobs
    ensures out == FirstPass(p, cwd, tracked, staged, blobs, cwd.Keys)
    ensures cwdFilesMap.Keys == cwd.Keys
    ensures refused == RefusedFiles(p, cwd, tracked, staged)
  {
    out := cwd;
    cwdFilesMap := map[];
    refused := {};
    var pending := cwd.Keys;
    assert out == FirstPass(p, cwd, tracked, staged, blobs, {});
    while pending != {}
      invariant cwdFilesMap.Keys + pending == cwd.Keys && cwdFilesMap.Keys !! pending
      invariant out == FirstPass(p, cwd, tracked, staged, blobs, cwdFilesMap.Keys)
      invariant refused == set f | f in cwdFilesMap && Refuses(p, cwd, tracked, staged, f)
      decreases pending
    {
      var fileName :| fileName in pending;
      FirstPassStep(p, cwd, tracked, staged, blobs, cwdFilesMap.Keys, fileName);
      ghost var seen := cwdFilesMap.Keys;
      cwdFilesMap := cwdFilesMap[fileName := 0];
      assert cwdFilesMap.Keys == seen + {fileName};
      if fileName in tracked {
        var fileIdInBranchHead := tracked[fileName];
        var fileIdInCwd := ContentId(p, cwd[fileName]);
        if fileIdInBranchHead != fileIdInCwd {
          if fileIdInCwd in staged {
            out := out[fileName := Blobs.GetBlob(blobs, fileIdInBranchHead).value.content];
          } else {
            refused := refused + {fileName};
          }
        }
      } else {
        out := out - {fileName};
      }
      pending := pending - {fileName};
    }
  }

  /** The second loop of checkoutBranch: every target name the first loop did not see is created. */
  method CreateMissing(tracked: map<string, string>, blobs: Blobs.BlobStore, cwdFilesMap: map<string, int>,
                       cwd: map<string, string>) returns (out: map<string, string>)
    requires forall f :: f in tracked ==> tracked[f] in blobs
    ensures out == cwd + Created(tracked, blobs, cwdFilesMap.Keys, tracked.Keys)
  {
    out := cwd;
    ghost var done: set<string> := {};
    var pending := tracked.Keys;
    assert cwd + Created(tracked, blobs, cwdFilesMap.Keys, {}) == cwd;
    while pending != {}
      invariant done + pending == tracked.Keys && done !! pending
      invariant out == cwd + Created(tracked, blobs, cwdFilesMap.Keys, done)
      decreases pending
    {
      var fileName :| fileName in pending;
      CreatedStep(tracked, blobs, cwdFilesMap.Keys, done, cwd, fileName);
      if fileName !in cwdFilesMap {
        out := out[fileName := Blobs.GetBlob(blobs, tracked[fileName]).value.content];
      }
      done := done + {fileName};
      pending := pending - {fileName};
    }
  }
  /** The while loop of log: visit the current commit, then move to its parent's stored commit. */
  method Walk(commits: Commits.CommitStore, head: string) returns (visited: seq<Commits.CommitData>)
    ensures visited == History(commits, head, |commits|)
  {
    visited := [];
    var current := Commits.GetCommit(commits, head);
    var id := head;
    var fuel: nat := |commits|;
    ghost var todo := History(commits, head, |commits|);
    while current.Some? && fuel > 0
      invariant current.Some? ==> id in commits && current.value == commits[id]
      invariant History(commits, head, |commits|) == visited + todo
      invariant if current.Some? then todo == History(commits, id, fuel) else todo == []
      decreases fuel
    {
      var c := current.value;
      ghost var rest := if c.parent.Some? then History(commits, c.parent.value, fuel - 1) else [];
      assert todo == [c] + rest;
      assert visited + todo == (visited + [c]) + rest;
      visited := visited + [c];
      todo := rest;
      fuel := fuel - 1;
      match c.parent
      case None =>
        current := None;
      case Some(parentId) =>
        current := Commits.GetCommit(commits, parentId);
        id := parentId;
    }
  }
}
