/** gitlet/StagingArea.java: the index, two HashMaps from file name to blob id, edited in place. */
module Staging {
  import opened Utils

  class StagingArea {
    var added: map<string, string>
    var removed: map<string, string>

    /** new StagingArea(): both maps empty. */
    constructor ()
      ensures added == map[] && removed == map[]
    {
      added := map[];
      removed := map[];
    }

    /** StagingArea.existentForAddition: is the name staged for addition? */
    predicate ExistentForAddition(fileName: string)
      reads this
    {
      fileName in added
    }

    /**
     * StagingArea.containsAddedFile: documented as taking a file id, but it looks the argument up
     * among the keys of `added`, which are file names.
     */
    predicate ContainsAddedFile(fileId: string)
      reads this
    {
      fileId in added
    }

    /** StagingArea.addForAddition: stages the name with the hash of its current content. */
    method AddForAddition(p: Primitives, cwd: map<string, string>, fileName: string)
      requires fileName in cwd
      modifies this
      ensures added == old(added)[fileName := ContentId(p, cwd[fileName])]
      ensures removed == old(removed)
    {
      added := added[fileName := ContentId(p, cwd[fileName])];
    }

    /** StagingArea.markForRemoval: records the name, with the hash of its current content, for removal. */
    method MarkForRemoval(p: Primitives, cwd: map<string, string>, fileName: string)
      requires fileName in cwd
      modifies this
      ensures removed == old(removed)[fileName := ContentId(p, cwd[fileName])]
      ensures added == old(added)
    {
      removed := removed[fileName := ContentId(p, cwd[fileName])];
    }

    /** StagingArea.clear: empties `added` only; `removed` survives. */
    method Clear()
      modifies this
      ensures added == map[]
      ensures removed == old(removed)
    {
      added := map[];
    }

    /** StagingArea.unStage: drops the name from `added` only. */
    method UnStage(fileName: string)
      modifies this
      ensures added == old(added) - {fileName}
      ensures removed == old(removed)
    {
      added := added - {fileName};
    }
  }

  /** The membership test checkout-branch relies on is the by-name test `rm` uses. */
  lemma ContainsAddedFileTestsNames(s: StagingArea, x: string)
    ensures s.ContainsAddedFile(x) <==> s.ExistentForAddition(x)
  {
  }

  /** Staging the same unchanged file twice leaves the index as the first staging left it. */
  method AddForAdditionTwice(s: StagingArea, p: Primitives, cwd: map<string, string>, fileName: string)
    requires fileName in cwd
    modifies s
    ensures s.added == old(s.added)[fileName := ContentId(p, cwd[fileName])]
    ensures s.removed == old(s.removed)
  {
    s.AddForAddition(p, cwd, fileName);
    ghost var once := s.added;
    s.AddForAddition(p, cwd, fileName);
    assert s.added == once;
  }

  /** Unstaging twice is unstaging once, and neither touches `removed`. */
  method UnStageTwice(s: StagingArea, fileName: string)
    modifies s
    ensures s.added == old(s.added) - {fileName}
    ensures !s.ExistentForAddition(fileName)
    ensures s.removed == old(s.removed)
  {
    s.UnStage(fileName);
    ghost var once := s.added;
    s.UnStage(fileName);
    assert s.added == once;
  }
}
