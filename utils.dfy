/**
 * The primitives that Gitlet takes from gitlet/Utils.java and from java.util.Date.
 * Utils.java is not part of this model, so each primitive is a function value that
 * the repository is given once and that no proof looks inside: SHA-1 in particular
 * is uninterpreted, and nothing here assumes it is free of collisions.
 */
module Utils {

  datatype Primitives = Primitives(
    /** Utils.sha1(vals...): the digest of a list of strings. */
    sha1: seq<string> -> string,
    /** Utils.serialize applied to a commit's file table. */
    serialize: map<string, string> -> string,
    /** Date.toString of a timestamp (used in commit ids). */
    dateString: nat -> string,
    /** SimpleDateFormat("EEE, MMMM dd, yyyy HH:mm:ss z").format of a timestamp (used by log). */
    formatDate: nat -> string)

  /** The id Gitlet gives to a file's content: the SHA-1 of that one string. */
  function ContentId(p: Primitives, content: string): string
  {
    p.sha1([content])
  }

  /** Each line followed by a newline, as a StringBuilder that appends line and "\n" builds it. */
  function Unlines(lines: seq<string>): (r: string)
    ensures lines == [] ==> r == ""
    ensures lines != [] ==> |r| >= |lines[0]| + 1 && r[..|lines[0]|] == lines[0] && r[|lines[0]|] == '\n'
  {
    if lines == [] then "" else lines[0] + "\n" + Unlines(lines[1..])
  }
}
