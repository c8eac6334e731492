/**
 * Paths of the metadata tree: a sequence of node names whose first segment is
 * the tree's root name ("root.laptop.d1" is ["root", "laptop", "d1"]), and the
 * errors whose messages name a path.
 */
module Paths {

  type Path = seq<string>

  /** The single-level wildcard segment of a query path. */
  const Wildcard: string := "*"

  /** The dotted text of a path, as error messages print it. */
  function Join(p: Path): string {
    if |p| == 0 then "" else if |p| == 1 then p[0] else p[0] + "." + Join(p[1..])
  }

  predicate IsPrefix(p: Path, q: Path) {
    |p| <= |q| && q[..|p|] == p
  }

  predicate IsStrictPrefix(p: Path, q: Path) {
    |p| < |q| && q[..|p|] == p
  }

  /** Segment `i` of a pattern admits segment `s` of a path. */
  predicate SegmentMatches(pattern: Path, i: nat, s: string)
    requires i < |pattern|
  {
    pattern[i] == Wildcard || pattern[i] == s
  }

  /** Exact-depth match: one concrete path segment per pattern segment. */
  predicate MatchesPattern(pattern: Path, q: Path) {
    |q| == |pattern| && forall i :: 0 <= i < |q| ==> SegmentMatches(pattern, i, q[i])
  }

  /**
   * Prefix match: `q` and `pattern` agree (up to wildcards) on the segments
   * they both have, so `q` is an ancestor of, or lies below, a path the pattern matches.
   */
  predicate Overlaps(pattern: Path, q: Path) {
    forall i :: 0 <= i < |q| && i < |pattern| ==> SegmentMatches(pattern, i, q[i])
  }

  datatype MetadataError =
    | PathNotLegal(path: Path)       // the first segment is not the root name, or the path is too short
    | PathAlreadyExist(path: Path)   // the named node is in the way of the mutation
    | PathNotFound(path: Path)       // nothing at the path, or no storage group above it
    | MergeConflict(path: Path)      // two trees disagree on the node at the path

  /** The exception messages that callers match on. */
  function Message(e: MetadataError): string
    requires e.PathNotLegal? || e.PathAlreadyExist?
  {
    match e
    case PathAlreadyExist(p) => "Path [" + Join(p) + "] already exist"
    case PathNotLegal(p) => Join(p) + " is not a legal path"
  }

  /** Joining a path of two or more segments puts a dot after the first. */
  lemma JoinStep(x: string, rest: Path)
    requires rest != []
    ensures Join([x] + rest) == x + "." + Join(rest)
  {
    assert ([x] + rest)[1..] == rest;
  }

  /** The already-exist message for the measurement the MTree tests add below. */
  lemma LeafExistsMessage()
    ensures Message(PathAlreadyExist(["root", "laptop", "d1", "s1"])) == "Path [root.laptop.d1.s1] already exist"
  {
    var j := Join(["root", "laptop", "d1", "s1"]);
    assert j == "root.laptop.d1.s1" by {
      JoinStep("d1", ["s1"]);
      assert ["d1"] + ["s1"] == ["d1", "s1"];
      JoinStep("laptop", ["d1", "s1"]);
      assert ["laptop"] + ["d1", "s1"] == ["laptop", "d1", "s1"];
      JoinStep("root", ["laptop", "d1", "s1"]);
      assert ["root"] + ["laptop", "d1", "s1"] == ["root", "laptop", "d1", "s1"];
    }
    assert "Path [" + j + "] already exist" == "Path [root.laptop.d1.s1] already exist" by {
      assert "Path [" + "root.laptop.d1.s1" == "Path [root.laptop.d1.s1";
    }
  }

  /** The already-exist message for the storage group the MTree tests set twice over. */
  lemma GroupExistsMessage()
    ensures Message(PathAlreadyExist(["root", "laptop"])) == "Path [root.laptop] already exist"
  {
    JoinStep("root", ["laptop"]);
    assert ["root"] + ["laptop"] == ["root", "laptop"];
  }

  /** The not-legal message for a path outside the root. */
  lemma NotLegalMessage()
    ensures Message(PathNotLegal(["aa", "bb", "cc"])) == "aa.bb.cc is not a legal path"
  {
    JoinStep("bb", ["cc"]);
    assert ["bb"] + ["cc"] == ["bb", "cc"];
    JoinStep("aa", ["bb", "cc"]);
    assert ["aa"] + ["bb", "cc"] == ["aa", "bb", "cc"];
    assert Join(["aa", "bb", "cc"]) == "aa.bb.cc";
    assert "aa.bb.cc" + " is not a legal path" == "aa.bb.cc is not a legal path";
  }
}
