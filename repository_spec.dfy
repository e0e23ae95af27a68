/**
 * Reference definitions of what the commands of gitlet/Repository.java compute, stated on values,
 * with the lemmas that say what those definitions mean. The Repository class is proved against them.
 */
module RepositorySpec {
  import opened Wrappers
  import opened Utils
  import Blobs
  import opened Commits

  /** The commit `init` creates: fixed message, the epoch, no files, no parent. */
  function Root(): CommitData
  {
    CommitData("initial commit", 0, map[], None)
  }

  /** The root's id depends on nothing but the primitives: every init computes the same one. */
  lemma RootIdReproducible(p: Primitives)
    ensures Root().Id(p) == p.sha1(["initial commit", p.dateString(0), p.serialize(map[]), "null"])
  {
  }

  // ---------------------------------------------------------------- repository invariant

  /** Refs name stored commits, commits sit under their own id, parents are stored, every blob id a
   *  commit tracks has its blob, and the blob store is content-addressed. */
  ghost predicate Consistent(p: Primitives, blobs: Blobs.BlobStore, commits: CommitStore,
                             branches: map<string, string>, head: string, curBranch: string)
  {
    && head in commits
    && curBranch in branches
    && (forall b :: b in branches ==> branches[b] in commits)
    && (forall id :: id in commits ==> commits[id].Id(p) == id)
    && (forall id :: id in commits && commits[id].parent.Some? ==> commits[id].parent.value in commits)
    && (forall id, f :: id in commits && f in commits[id].files ==> commits[id].files[f] in blobs)
    && Blobs.ContentAddressed(p, blobs)
  }

  /** Writing more content-addressed blobs, never replacing one, keeps the invariant. */
  lemma MoreBlobsKeepConsistent(p: Primitives, blobs: Blobs.BlobStore, blobs': Blobs.BlobStore, commits: CommitStore,
                                branches: map<string, string>, head: string, curBranch: string)
    requires Consistent(p, blobs, commits, branches, head, curBranch)
    requires blobs.Keys <= blobs'.Keys && Blobs.ContentAddressed(p, blobs')
    ensures Consistent(p, blobs', commits, branches, head, curBranch)
  {
  }

  /** Writing more content-addressed blobs, saving a commit whose parent is HEAD and whose blobs are
   *  then stored, and moving the current branch and HEAD to it keeps the invariant, however the new
   *  commit's id collides with stored ones. */
  lemma CommitKeepsConsistent(p: Primitives, blobs: Blobs.BlobStore, commits: CommitStore,
                              branches: map<string, string>, head: string, curBranch: string, c: CommitData,
                              blobs': Blobs.BlobStore, commits': CommitStore, branches': map<string, string>, head': string)
    requires Consistent(p, blobs, commits, branches, head, curBranch)
    requires blobs.Keys <= blobs'.Keys && Blobs.ContentAddressed(p, blobs')
    requires c.parent == Some(head) && forall f :: f in c.files ==> c.files[f] in blobs'
    requires commits' == Commits.Save(p, commits, c) && head' == c.Id(p) && branches' == branches[curBranch := head']
    ensures Consistent(p, blobs', commits', branches', head', curBranch)
  {
    assert commits' == commits[c.Id(p) := c];
    forall id, f | id in commits' && f in commits'[id].files ensures commits'[id].files[f] in blobs' {
      if id != c.Id(p) {
        assert commits'[id] == commits[id];
      }
    }
  }

  // ---------------------------------------------------------------- commit

  /** `files` after the addFile loop: each name in `names` re-hashed from the working directory. */
  function Overlay(p: Primitives, files: map<string, string>, names: set<string>, cwd: map<string, string>): map<string, string>
    requires names <= cwd.Keys
  {
    map f | f in files.Keys + names :: if f in names then ContentId(p, cwd[f]) else files[f]
  }

  /** One more re-hashed name is one more map update. */
  lemma OverlayStep(p: Primitives, files: map<string, string>, names: set<string>, cwd: map<string, string>, f: string)
    requires names <= cwd.Keys && f in cwd
    ensures Overlay(p, files, names + {f}, cwd) == Overlay(p, files, names, cwd)[f := ContentId(p, cwd[f])]
  {
    var a := Overlay(p, files, names + {f}, cwd);
    var b := Overlay(p, files, names, cwd)[f := ContentId(p, cwd[f])];
    assert a.Keys == b.Keys;
    forall g | g in a ensures a[g] == b[g] {
    }
  }

  /** The file table of a new commit: the parent's, overlaid with the added names, minus the removed names. */
  function CommittedFiles(p: Primitives, parentFiles: map<string, string>, added: set<string>,
                          removed: set<string>, cwd: map<string, string>): map<string, string>
    requires added <= cwd.Keys
  {
    Overlay(p, parentFiles, added, cwd) - removed
  }

  /** Name by name: what the new commit tracks and under which blob id. */
  lemma CommittedFilesEntry(p: Primitives, parentFiles: map<string, string>, added: set<string>,
                            removed: set<string>, cwd: map<string, string>, f: string)
    requires added <= cwd.Keys
    ensures var r := CommittedFiles(p, parentFiles, added, removed, cwd);
            && (f in r <==> (f in parentFiles || f in added) && f !in removed)
            && (f in r && f in added ==> r[f] == ContentId(p, cwd[f]))
            && (f in r && f !in added ==> r[f] == parentFiles[f])
  {
  }

  /**
   * Because `clear` keeps `removed`, a name removed by an earlier commit stays marked: staging it
   * again does not bring it back, since removals are applied after additions.
   */
  lemma StaleRemovalWins(p: Primitives, parentFiles: map<string, string>, added: set<string>,
                         removed: set<string>, cwd: map<string, string>, f: string)
    requires added <= cwd.Keys && f in added && f in removed
    ensures f !in CommittedFiles(p, parentFiles, added, removed, cwd)
  {
  }

  /** The blob store only grew, and each new blob was built from one of `names`' working files. */
  ghost predicate GrewFrom(p: Primitives, before: Blobs.BlobStore, after: Blobs.BlobStore,
                           names: set<string>, cwd: map<string, string>)
  {
    && (forall id :: id in before ==> id in after && after[id] == before[id])
    && (forall id :: id in after && id !in before ==>
          exists n :: n in names && n in cwd && after[id] == Blobs.NewBlob(p, cwd, n))
  }

  /** GrewFrom with the witnesses given: `origin` names, for each new blob id, the file it was built from. */
  ghost predicate GrewFromVia(p: Primitives, before: Blobs.BlobStore, after: Blobs.BlobStore,
                              names: set<string>, cwd: map<string, string>, origin: map<string, string>)
  {
    && (forall id :: id in before ==> id in after && after[id] == before[id])
    && (forall id :: id in after && id !in before ==>
          && id in origin && origin[id] in names && origin[id] in cwd
          && id == ContentId(p, cwd[origin[id]]) && after[id] == Blobs.NewBlob(p, cwd, origin[id]))
  }

  /** Once the witnesses are forgotten, GrewFromVia is GrewFrom, and the store stays content-addressed. */
  lemma GrewFromViaGrewFrom(p: Primitives, before: Blobs.BlobStore, after: Blobs.BlobStore,
                            names: set<string>, cwd: map<string, string>, origin: map<string, string>)
    requires GrewFromVia(p, before, after, names, cwd, origin)
    requires Blobs.ContentAddressed(p, before)
    ensures GrewFrom(p, before, after, names, cwd)
    ensures Blobs.ContentAddressed(p, after)
  {
    forall id | id in after && id !in before
      ensures exists n :: n in names && n in cwd && after[id] == Blobs.NewBlob(p, cwd, n)
    {
      var n := origin[id];
      assert n in names && n in cwd && after[id] == Blobs.NewBlob(p, cwd, n);
    }
  }

  // ---------------------------------------------------------------- find

  /** The ids of the stored commits whose message is exactly `message`. */
  function Matching(commits: CommitStore, message: string): set<string>
  {
    set id | id in commits && commits[id].message == message
  }

  // ---------------------------------------------------------------- log

  /**
   * The commits log visits: from `id`, follow parent links while the id is stored and the commit
   * has a parent, for at most `fuel` commits.
   */
  function History(commits: CommitStore, id: string, fuel: nat): seq<CommitData>
    decreases fuel
  {
    if fuel == 0 || id !in commits then []
    else match commits[id].parent
      case None => [commits[id]]
      case Some(pid) => [commits[id]] + History(commits, pid, fuel - 1)
  }

  /** The blocks log prints for a list of commits: each commit's toString, in the same order. */
  function Render(p: Primitives, cs: seq<CommitData>): (r: seq<string>)
    ensures |r| == |cs| && forall i :: 0 <= i < |cs| ==> r[i] == cs[i].ToString(p)
  {
    if cs == [] then [] else Render(p, cs[..|cs| - 1]) + [cs[|cs| - 1].ToString(p)]
  }

  /** History is a parent chain: it starts at `id`, each entry is the parent of the one before, and it
   *  stops only at a root, at an unstored parent, or when the fuel runs out. */
  lemma {:induction false} HistoryIsParentChain(commits: CommitStore, id: string, fuel: nat)
    ensures var h := History(commits, id, fuel);
            && |h| <= fuel
            && (h == [] <==> fuel == 0 || id !in commits)
            && (h != [] ==> h[0] == commits[id])
            && (forall i :: 0 <= i < |h| - 1 ==>
                  h[i].parent.Some? && h[i].parent.value in commits && h[i + 1] == commits[h[i].parent.value])
            && (0 < |h| < fuel ==> h[|h| - 1].parent.None? || h[|h| - 1].parent.value !in commits)
    decreases fuel
  {
    if fuel > 0 && id in commits && commits[id].parent.Some? {
      var pid := commits[id].parent.value;
      HistoryIsParentChain(commits, pid, fuel - 1);
      var t := History(commits, pid, fuel - 1);
      var h := History(commits, id, fuel);
      assert h == [commits[id]] + t;
      forall i | 0 <= i < |h| - 1
        ensures h[i].parent.Some? && h[i].parent.value in commits && h[i + 1] == commits[h[i].parent.value]
      {
        if i > 0 {
          assert h[i] == t[i - 1] && h[i + 1] == t[i];
        }
      }
    }
  }

  /** `ids` is a stored chain of commits linked by parent ids, ending at a root. */
  ghost predicate RootedChain(commits: CommitStore, ids: seq<string>)
  {
    && (forall i :: 0 <= i < |ids| ==> ids[i] in commits)
    && (forall i :: 0 <= i < |ids| - 1 ==> commits[ids[i]].parent == Some(ids[i + 1]))
    && (|ids| > 0 ==> commits[ids[|ids| - 1]].parent.None?)
  }

  /** With enough fuel, History lists exactly the commits of a rooted chain, newest first. */
  lemma {:induction false} HistoryOfRootedChain(commits: CommitStore, ids: seq<string>, fuel: nat)
    requires |ids| > 0 && RootedChain(commits, ids) && |ids| <= fuel
    ensures var h := History(commits, ids[0], fuel);
            |h| == |ids| && forall i :: 0 <= i < |ids| ==> h[i] == commits[ids[i]]
    decreases |ids|
  {
    if |ids| > 1 {
      var tail := ids[1..];
      assert RootedChain(commits, tail) by {
        forall i | 0 <= i < |tail| - 1 ensures commits[tail[i]].parent == Some(tail[i + 1]) {
          assert tail[i] == ids[i + 1] && tail[i + 1] == ids[i + 2];
        }
      }
      HistoryOfRootedChain(commits, tail, fuel - 1);
    }
  }

  /** A duplicate-free chain of stored ids is no longer than the store. */
  lemma {:induction false} DistinctIdsFit(commits: CommitStore, ids: seq<string>)
    requires forall i :: 0 <= i < |ids| ==> ids[i] in commits
    requires forall i, j :: 0 <= i < j < |ids| ==> ids[i] != ids[j]
    ensures |ids| <= |commits|
  {
    DistinctCard(ids);
    var s := set i | i in ids;
    SubsetCard(s, commits.Keys);
  }

  lemma {:induction false} SubsetCard(a: set<string>, b: set<string>)
    requires a <= b
    ensures |a| <= |b|
    decreases |a|
  {
    if a != {} {
      var x :| x in a;
      SubsetCard(a - {x}, b - {x});
    }
  }

  lemma {:induction false} DistinctCard(ids: seq<string>)
    requires forall i, j :: 0 <= i < j < |ids| ==> ids[i] != ids[j]
    ensures |set i | i in ids| == |ids|
    decreases |ids|
  {
    if ids != [] {
      var rest := ids[1..];
      DistinctCard(rest);
      assert (set i | i in ids) == (set i | i in rest) + {ids[0]};
      assert ids[0] !in rest;
    }
  }

  // ---------------------------------------------------------------- checkout of a branch

  /**
   * The first loop of checkoutBranch refuses a working file when the target tracks it under a
   * different id and the hash of the file, taken as a file NAME, is not staged for addition.
   */
  predicate Refuses(p: Primitives, cwd: map<string, string>, tracked: map<string, string>,
                    staged: set<string>, f: string)
  {
    f in cwd && f in tracked && tracked[f] != ContentId(p, cwd[f]) && ContentId(p, cwd[f]) !in staged
  }

  /** The working files checkoutBranch reports as an untracked file in the way. */
  function RefusedFiles(p: Primitives, cwd: map<string, string>, tracked: map<string, string>,
                        staged: set<string>): set<string>
  {
    set f | f in cwd && Refuses(p, cwd, tracked, staged, f)
  }

  /** The working directory after both loops of checkoutBranch. */
  function Reconciled(p: Primitives, cwd: map<string, string>, tracked: map<string, string>,
                      staged: set<string>, blobs: Blobs.BlobStore): map<string, string>
    requires forall f :: f in tracked ==> tracked[f] in blobs
  {
    map f | f in tracked ::
      if f in cwd && (tracked[f] == ContentId(p, cwd[f]) || ContentId(p, cwd[f]) !in staged)
      then cwd[f]
      else blobs[tracked[f]].content
  }

  /**
   * After checkoutBranch the working directory holds exactly the target's names; every one not
   * refused has the target's content, and every refused one keeps its old content.
   */
  lemma ReconciledMatchesTarget(p: Primitives, cwd: map<string, string>, tracked: map<string, string>,
                                staged: set<string>, blobs: Blobs.BlobStore)
    requires forall f :: f in tracked ==> tracked[f] in blobs
    requires Blobs.ContentAddressed(p, blobs)
    ensures var r := Reconciled(p, cwd, tracked, staged, blobs);
            && r.Keys == tracked.Keys
            && (forall f :: f in tracked && !Refuses(p, cwd, tracked, staged, f) ==> ContentId(p, r[f]) == tracked[f])
            && (forall f :: f in RefusedFiles(p, cwd, tracked, staged) ==> r[f] == cwd[f])
  {
  }

  /**
   * The guard looks at the file's hash, not at its name: a working file staged under its own name
   * and edited since is refused unless some staged name happens to equal its hash, and an
   * unstaged file is overwritten when some staged name equals its hash.
   */
  lemma GuardTestsHashAmongNames(p: Primitives, cwd: map<string, string>, tracked: map<string, string>,
                                 staged: set<string>, blobs: Blobs.BlobStore, f: string)
    requires forall g :: g in tracked ==> tracked[g] in blobs
    requires f in cwd && f in tracked && tracked[f] != ContentId(p, cwd[f])
    ensures var r := Reconciled(p, cwd, tracked, staged, blobs);
            (r[f] == cwd[f] || ContentId(p, cwd[f]) in staged) &&
            (ContentId(p, cwd[f]) in staged ==> r[f] == blobs[tracked[f]].content) &&
            (f in RefusedFiles(p, cwd, tracked, staged) <==> ContentId(p, cwd[f]) !in staged)
  {
  }
  /**
   * The working directory once the first loop of checkoutBranch has handled the names in `seen`:
   * a handled name the target does not track is deleted, and a handled name the target tracks
   * under another id is overwritten with the target's content when its hash is staged.
   */
  function FirstPass(p: Primitives, cwd: map<string, string>, tracked: map<string, string>,
                     staged: set<string>, blobs: Blobs.BlobStore, seen: set<string>): map<string, string>
    requires forall f :: f in tracked ==> tracked[f] in blobs
  {
    map f | f in cwd && (f !in seen || f in tracked) ::
      if f in seen && f in tracked && tracked[f] != ContentId(p, cwd[f]) && ContentId(p, cwd[f]) in staged
      then blobs[tracked[f]].content
      else cwd[f]
  }

  /** Handling one more working file is one deletion, one overwrite, or nothing. */
  lemma FirstPassStep(p: Primitives, cwd: map<string, string>, tracked: map<string, string>,
                      staged: set<string>, blobs: Blobs.BlobStore, seen: set<string>, f: string)
    requires forall g :: g in tracked ==> tracked[g] in blobs
    requires f in cwd && f !in seen
    ensures var before := FirstPass(p, cwd, tracked, staged, blobs, seen);
            FirstPass(p, cwd, tracked, staged, blobs, seen + {f}) ==
              if f !in tracked then before - {f}
              else if tracked[f] != ContentId(p, cwd[f]) && ContentId(p, cwd[f]) in staged
              then before[f := blobs[tracked[f]].content]
              else before
  {
    var before := FirstPass(p, cwd, tracked, staged, blobs, seen);
    var after := FirstPass(p, cwd, tracked, staged, blobs, seen + {f});
    var expected := if f !in tracked then before - {f}
                    else if tracked[f] != ContentId(p, cwd[f]) && ContentId(p, cwd[f]) in staged
                    then before[f := blobs[tracked[f]].content]
                    else before;
    assert after.Keys == expected.Keys;
    forall g | g in after ensures after[g] == expected[g] {
    }
  }

  /** The files the second loop of checkoutBranch creates once it has handled the target names in `done`. */
  function Created(tracked: map<string, string>, blobs: Blobs.BlobStore, seen: set<string>,
                   done: set<string>): map<string, string>
    requires forall f :: f in tracked ==> tracked[f] in blobs
  {
    map f | f in done && f in tracked && f !in seen :: blobs[tracked[f]].content
  }

  /** Handling one more target name creates it exactly when the first loop did not see it. */
  lemma CreatedStep(tracked: map<string, string>, blobs: Blobs.BlobStore, seen: set<string>,
                    done: set<string>, base: map<string, string>, f: string)
    requires forall g :: g in tracked ==> tracked[g] in blobs
    requires f in tracked
    ensures base + Created(tracked, blobs, seen, done + {f}) ==
              if f in seen then base + Created(tracked, blobs, seen, done)
              else (base + Created(tracked, blobs, seen, done))[f := blobs[tracked[f]].content]
  {
    var after := base + Created(tracked, blobs, seen, done + {f});
    var expected := if f in seen then base + Created(tracked, blobs, seen, done)
                    else (base + Created(tracked, blobs, seen, done))[f := blobs[tracked[f]].content];
    assert after.Keys == expected.Keys;
    forall g | g in after ensures after[g] == expected[g] {
    }
  }

  /** Both loops together, over every working file and every target name, give Reconciled. */
  lemma PassesReconcile(p: Primitives, cwd: map<string, string>, tracked: map<string, string>,
                        staged: set<string>, blobs: Blobs.BlobStore)
    requires forall f :: f in tracked ==> tracked[f] in blobs
    ensures FirstPass(p, cwd, tracked, staged, blobs, cwd.Keys) + Created(tracked, blobs, cwd.Keys, tracked.Keys)
            == Reconciled(p, cwd, tracked, staged, blobs)
  {
    var a := FirstPass(p, cwd, tracked, staged, blobs, cwd.Keys) + Created(tracked, blobs, cwd.Keys, tracked.Keys);
    var b := Reconciled(p, cwd, tracked, staged, blobs);
    assert a.Keys == b.Keys;
    forall g | g in a ensures a[g] == b[g] {
    }
  }
}

