/**
 * gitlet/Commit.java. A commit is built in place (its file table is copied from the parent and then
 * edited) and, once saved, lives in the commits directory as a serialized value. The class `Commit`
 * is the object under construction; `CommitData` is the value that the store keeps and that
 * Commit.getCommit hands back.
 */
module Commits {
  import opened Wrappers
  import opened Utils
  import Blobs

  /** What a Commit object holds: message, timestamp, file table (name to blob id) and parent id. */
  datatype CommitData = CommitData(message: string, timestamp: nat, files: map<string, string>, parent: Option<string>)
  {
    /** The last argument of getId: the parent id, or the string "null" for a root commit. */
    function ParentField(): string
    {
      if parent.Some? then parent.value else "null"
    }

    /** Commit.getId: the SHA-1 of message, Date.toString, the serialized table and the parent field. */
    function Id(p: Primitives): string
    {
      p.sha1([message, p.dateString(timestamp), p.serialize(files), ParentField()])
    }

    /** Commit.containsFile. */
    predicate ContainsFile(name: string)
    {
      name in files
    }

    /** Commit.getFileId: HashMap.get, which is null (None) for an untracked name. */
    function GetFileId(name: string): (r: Option<string>)
      ensures r.Some? <==> ContainsFile(name)
      ensures ContainsFile(name) ==> r.value == files[name]
    {
      if name in files then Some(files[name]) else None
    }

    /** Commit.toString: the block log prints for this commit. */
    function ToString(p: Primitives): string
    {
      "===\n" + "commit " + Id(p) + "\n" + "Date:   " + p.formatDate(timestamp) + "\n" + "\n" + message + "\n"
    }
  }

  /** getId depends on nothing but the four fields it hashes: equal fields give equal ids. */
  lemma IdDeterministic(p: Primitives, c1: CommitData, c2: CommitData)
    requires c1.message == c2.message && c1.timestamp == c2.timestamp
    requires c1.files == c2.files && c1.ParentField() == c2.ParentField()
    ensures c1.Id(p) == c2.Id(p)
  {
  }

  /** A root commit and a commit whose parent id is the string "null" hash the same inputs. */
  lemma NullParentCollides(p: Primitives, message: string, timestamp: nat, files: map<string, string>)
    ensures CommitData(message, timestamp, files, None).Id(p) == CommitData(message, timestamp, files, Some("null")).Id(p)
  {
  }

  /** toString prints five lines: "===", "commit <id>", "Date:   <date>", a blank line, the message. */
  lemma {:induction false} ToStringLayout(p: Primitives, c: CommitData)
    ensures c.ToString(p) == Unlines(["===", "commit " + c.Id(p), "Date:   " + p.formatDate(c.timestamp), "", c.message])
  {
    var l := ["===", "commit " + c.Id(p), "Date:   " + p.formatDate(c.timestamp), "", c.message];
    assert l[1..][1..][1..][1..][1..] == [];
    calc {
      Unlines(l);
      l[0] + "\n" + Unlines(l[1..]);
      l[0] + "\n" + (l[1] + "\n" + Unlines(l[1..][1..]));
      l[0] + "\n" + (l[1] + "\n" + (l[2] + "\n" + Unlines(l[1..][1..][1..])));
      l[0] + "\n" + (l[1] + "\n" + (l[2] + "\n" + (l[3] + "\n" + Unlines(l[1..][1..][1..][1..]))));
      l[0] + "\n" + (l[1] + "\n" + (l[2] + "\n" + (l[3] + "\n" + (l[4] + "\n" + Unlines(l[1..][1..][1..][1..][1..])))));
    }
  }

  /** The commits directory: one serialized commit per file, named by the commit's id. */
  type CommitStore = map<string, CommitData>

  /** Commit.getCommit: null (None) when no commit file is named `id`. */
  function GetCommit(store: CommitStore, id: string): (r: Option<CommitData>)
    ensures r.None? <==> id !in store
    ensures r.Some? ==> r.value == store[id]
  {
    if id in store then Some(store[id]) else None
  }

  /** Commit.save: writes the commit under getId(), replacing whatever had that name. */
  function Save(p: Primitives, store: CommitStore, c: CommitData): (r: CommitStore)
    ensures GetCommit(r, c.Id(p)) == Some(c)
  {
    store[c.Id(p) := c]
  }

  /** Saving a commit leaves every other id's lookup as it was: a colliding id is the only one replaced. */
  lemma SaveKeepsOthers(p: Primitives, store: CommitStore, c: CommitData, id: string)
    requires id != c.Id(p)
    ensures GetCommit(Save(p, store, c), id) == GetCommit(store, id)
  {
  }

  /** A Commit object while Repository.init or Repository.commit builds it. */
  class Commit {
    const message: string
    var timestamp: nat
    const parent: Option<string>
    var files: map<string, string>

    /** new Commit(message, parent): the current time, except a root commit, which gets the epoch. */
    constructor (message: string, parent: Option<string>, now: nat)
      ensures this.message == message && this.parent == parent && files == map[]
      ensures parent.None? ==> timestamp == 0
      ensures parent.Some? ==> timestamp == now
    {
      this.message := message;
      this.parent := parent;
      this.timestamp := now;
      this.files := map[];
      if parent.None? {
        this.timestamp := 0;
      }
    }

    /** The value that serializing this object records. */
    function Data(): CommitData
      reads this
    {
      CommitData(message, timestamp, files, parent)
    }

    /** Commit.getId on the object. */
    function GetId(p: Primitives): string
      reads this
    {
      Data().Id(p)
    }

    /** Commit.setFiles: the object gets its own copy of the given table. */
    method SetFiles(files: map<string, string>)
      modifies this
      ensures this.files == files
      ensures timestamp == old(timestamp)
    {
      this.files := files;
    }

    /** Commit.removeFile: drops that one name from the table. */
    method RemoveFile(fileName: string)
      modifies this
      ensures files == old(files) - {fileName}
      ensures timestamp == old(timestamp)
    {
      files := files - {fileName};
    }

    /**
     * Commit.addFile: re-reads and re-hashes the working file, records that id for the name, and
     * writes a blob for it only when no blob of that id is stored yet (never replacing one).
     * Reading a missing working file throws in the source; callers must rule that out.
     */
    method AddFile(p: Primitives, cwd: map<string, string>, blobs: Blobs.BlobStore, fileName: string)
      returns (blobs': Blobs.BlobStore)
      requires fileName in cwd
      modifies this
      ensures files == old(files)[fileName := ContentId(p, cwd[fileName])]
      ensures timestamp == old(timestamp)
      ensures ContentId(p, cwd[fileName]) in blobs'
      ensures ContentId(p, cwd[fileName]) in blobs ==> blobs' == blobs
      ensures ContentId(p, cwd[fileName]) !in blobs ==>
                blobs' == blobs[ContentId(p, cwd[fileName]) := Blobs.NewBlob(p, cwd, fileName)]
    {
      var fileId := ContentId(p, cwd[fileName]);
      files := files[fileName := fileId];
      if Blobs.GetBlob(blobs, fileId).None? {
        var newBlob := Blobs.NewBlob(p, cwd, fileName);
        blobs' := Blobs.Save(blobs, newBlob);
      } else {
        blobs' := blobs;
      }
    }
  }
}
