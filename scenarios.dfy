/**
 * Command sequences run against a Repository, showing how the commands of
 * gitlet/Repository.java compose.
 */
module Scenarios {
  import opened Wrappers
  import opened Utils
  import opened RepositorySpec
  import opened Gitlet

  /** init, add, commit on a fresh directory: HEAD tracks the file under its content's hash. */
  method FirstCommit(p: Primitives, cwd: map<string, string>, name: string, now: nat) returns (r: Repository)
    requires name in cwd
    ensures fresh(r) && fresh(r.stagingArea) && r.Valid() && r.initialized && r.cwd == cwd
    ensures name in r.commits[r.head].files && r.commits[r.head].files[name] == ContentId(p, cwd[name])
    ensures r.stagingArea.added == map[] && r.stagingArea.removed == map[]
  {
    r := new Repository(p, cwd);
    var o := r.Init(0);
    o := r.Add(name);
    o := r.Commit(Some("add"), now);
    CommittedFilesEntry(p, Root().files, {name}, {}, cwd, name);
  }

  /** rm and commit a tracked file: the new HEAD drops it, and the name stays recorded for removal. */
  method RemoveAndCommit(r: Repository, name: string, now: nat)
    requires r.Valid() && r.initialized && name in r.commits[r.head].files && name in r.cwd
    requires r.stagingArea.added == map[]
    modifies r, r.stagingArea
    ensures r.Valid() && r.initialized && r.stagingArea.added == map[] && name in r.stagingArea.removed
    ensures name !in r.cwd && name !in r.commits[r.head].files
  {
    var o := r.Rm(name);
    o := r.Commit(Some("remove"), now);
  }

  /**
   * After RemoveAndCommit, the user writes the file again, adds and commits it: the new commit
   * still does not track it, because the earlier commit's `clear` kept `removed`.
   */
  method RestagedFileStaysRemoved(r: Repository, name: string, content: string, now: nat)
    requires r.Valid() && r.initialized && r.stagingArea.added == map[] && name in r.stagingArea.removed
    modifies r, r.stagingArea
    ensures r.Valid() && name in r.cwd && name in r.stagingArea.removed
    ensures name !in r.commits[r.head].files
  {
    r.cwd := r.cwd[name := content];
    var o := r.Add(name);
    ghost var parentFiles, added, removed, cwd := r.commits[r.head].files, r.stagingArea.added, r.stagingArea.removed, r.cwd;
    assert added.Keys == {name} && name in cwd;
    o := r.Commit(Some("add again"), now);
    StaleRemovalWins(r.prims, parentFiles, added.Keys, removed.Keys, cwd, name);
  }
}
