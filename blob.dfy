/** gitlet/Blob.java: a content-addressed, immutable file snapshot and the store that holds blobs by id. */
module Blobs {
  import opened Wrappers
  import opened Utils

  /** A blob keeps the content read from a working file, the SHA-1 of that content, and the file's name. */
  datatype Blob = Blob(content: string, id: string, fileName: string)

  /** The blobs directory: one entry per blob, named by the blob's id. */
  type BlobStore = map<string, Blob>

  /** new Blob(file): reads the working file and hashes what it read. */
  function NewBlob(p: Primitives, cwd: map<string, string>, fileName: string): (b: Blob)
    requires fileName in cwd
    ensures b.content == cwd[fileName] && b.id == ContentId(p, b.content)
  {
    Blob(cwd[fileName], ContentId(p, cwd[fileName]), fileName)
  }

  /** Every stored blob sits under its own id, and that id is the hash of its content. */
  ghost predicate ContentAddressed(p: Primitives, store: BlobStore)
  {
    forall id :: id in store ==> store[id].id == id && ContentId(p, store[id].content) == id
  }

  /** Blob.getBlob: null (None) when no blob file is named `id`. */
  function GetBlob(store: BlobStore, id: string): (r: Option<Blob>)
    ensures r.None? <==> id !in store
    ensures r.Some? ==> r.value == store[id]
  {
    if id in store then Some(store[id]) else None
  }

  /** Blob.save: writes the blob under its id, replacing whatever had that name. */
  function Save(store: BlobStore, b: Blob): (r: BlobStore)
    ensures GetBlob(r, b.id) == Some(b)
  {
    store[b.id := b]
  }

  /** Saving a blob leaves every other id's lookup as it was. */
  lemma SaveKeepsOthers(store: BlobStore, b: Blob, id: string)
    requires id != b.id
    ensures GetBlob(Save(store, b), id) == GetBlob(store, id)
  {
  }

  /** Saving then looking up by the new blob's id gives back the content read from the file. */
  lemma SaveThenGet(p: Primitives, store: BlobStore, cwd: map<string, string>, fileName: string)
    requires fileName in cwd
    ensures var r := GetBlob(Save(store, NewBlob(p, cwd, fileName)), ContentId(p, cwd[fileName]));
            r.Some? && r.value.content == cwd[fileName] && r.value.id == ContentId(p, cwd[fileName])
  {
  }

  /** Two blobs built from identical content, whatever the file names, occupy one store entry. */
  lemma Deduplicated(p: Primitives, store: BlobStore, cwd1: map<string, string>, name1: string,
                     cwd2: map<string, string>, name2: string)
    requires name1 in cwd1 && name2 in cwd2 && cwd1[name1] == cwd2[name2]
    ensures var once := Save(store, NewBlob(p, cwd1, name1));
            NewBlob(p, cwd1, name1).id == NewBlob(p, cwd2, name2).id &&
            Save(once, NewBlob(p, cwd2, name2)).Keys == once.Keys
  {
  }

  /** Saving a blob built from a working file keeps the store content-addressed. */
  lemma SaveKeepsContentAddressed(p: Primitives, store: BlobStore, cwd: map<string, string>, fileName: string)
    requires fileName in cwd && ContentAddressed(p, store)
    ensures ContentAddressed(p, Save(store, NewBlob(p, cwd, fileName)))
  {
  }
}
