/**
 * The read-only queries of the metadata tree: existence, storage-group
 * checks and lookups, the storage groups a path reaches, and the one-level
 * wildcard expansion grouped by storage group.
 */
module MTreeQuery {
  import opened Wrappers
  import opened Paths
  import opened MNodes

  /** The tree a new MTree holds: its root and nothing else. */
  function EmptyTree(rootName: string): MNode {
    MNode(rootName, Internal, [])
  }

  function IsPathExist(root: MNode, path: Path): bool {
    Resolve(root, path).Some?
  }

  /** The node exactly at `path` is a storage group. */
  function CheckStorageGroup(root: MNode, path: Path): bool {
    KindOf(root, path) == Some(StorageGroup)
  }

  /** A new tree holds its root and nothing else. */
  lemma EmptyTreeHoldsRoot(rootName: string, path: Path)
    ensures IsPathExist(EmptyTree(rootName), path) <==> path == [rootName]
  {
    if path != [] && path[0] == rootName && path[1..] != [] {
      assert Find(EmptyTree(rootName), path[1..]).None?;
    }
    if path == [rootName] {
      assert path[1..] == [];
    }
  }

  /** The ancestors of an existing path exist (the root included). */
  lemma ExistingPathHasAncestors(root: MNode, path: Path, p: Path)
    requires IsPathExist(root, path) && IsPrefix(p, path) && |p| >= 1
    ensures IsPathExist(root, p)
  {
    assert p[1..] == path[1..][..|p| - 1];
    AncestorExists(root, p[1..], path[1..]);
  }

  /** Storage-group checks are exact: never true for the root, nor above or below a storage group. */
  lemma CheckStorageGroupIsExact(root: MNode, g: Path, q: Path)
    requires ValidTree(root) && CheckStorageGroup(root, g)
    requires IsStrictPrefix(g, q) || IsStrictPrefix(q, g) || q == [root.name]
    ensures !CheckStorageGroup(root, q)
  {
    if q == [root.name] {
      assert q[1..] == [];
    } else if IsStrictPrefix(g, q) {
      PrefixStep(g, q);
      StorageGroupsDoNotNest(root, g[1..], q[1..]);
    } else if CheckStorageGroup(root, q) {
      PrefixStep(q, g);
      StorageGroupsDoNotNest(root, q[1..], g[1..]);
    }
  }

  // ---------------------------------------------------------------------------
  // The storage group a path lives in.

  /** How many segments of `rest` lead from `n` to the first storage group on the way (0: `n` itself). */
  function FirstGroup(n: MNode, rest: Path): (r: Option<nat>)
    ensures r.Some? ==> r.value <= |rest|
    decreases rest
  {
    if n.kind.StorageGroup? then Some(0)
    else if rest == [] then None
    else match Child(n.children, rest[0])
      case None => None
      case Some(c) =>
        match FirstGroup(c, rest[1..])
        case None => None
        case Some(k) => Some(k + 1)
  }

  /** The length of the shortest prefix of `path` that is a storage group. */
  function GroupPrefixLength(root: MNode, path: Path): (r: Option<nat>)
    ensures r.Some? ==> 1 <= r.value <= |path|
  {
    if path == [] || path[0] != root.name then None
    else match FirstGroup(root, path[1..])
      case None => None
      case Some(k) => Some(k + 1)
  }

  /** Some prefix of `path`, the path included, is a storage group. */
  function CheckStorageGroupByPath(root: MNode, path: Path): bool {
    GroupPrefixLength(root, path).Some?
  }

  /** The storage group above (or at) `path`, or not-found when there is none on the way. */
  function GetStorageGroupNameByPath(root: MNode, path: Path): Result<Path, MetadataError> {
    match GroupPrefixLength(root, path)
    case None => Failure(PathNotFound(path))
    case Some(k) => Success(path[..k])
  }

  lemma {:induction false} FirstGroupIsFirst(n: MNode, rest: Path)
    ensures match FirstGroup(n, rest)
      case Some(k) =>
        && KindAt(n, rest[..k]) == Some(StorageGroup)
        && forall j :: 0 <= j < k ==> KindAt(n, rest[..j]) != Some(StorageGroup)
      case None =>
        forall j :: 0 <= j <= |rest| ==> KindAt(n, rest[..j]) != Some(StorageGroup)
    decreases rest
  {
    assert rest[..0] == [];
    if !n.kind.StorageGroup? && rest != [] {
      match Child(n.children, rest[0])
      case None =>
        forall j | 1 <= j <= |rest| ensures KindAt(n, rest[..j]) == None {
          KindAtStep(n, rest[..j]);
        }
      case Some(c) =>
        FirstGroupIsFirst(c, rest[1..]);
        forall j | 1 <= j <= |rest| ensures KindAt(n, rest[..j]) == KindAt(c, rest[1..][..j - 1]) {
          KindAtStep(n, rest[..j]);
          assert rest[..j][1..] == rest[1..][..j - 1];
        }
    }
  }

  lemma GroupPrefixLengthIsFirst(root: MNode, path: Path)
    ensures match GroupPrefixLength(root, path)
      case Some(k) =>
        && CheckStorageGroup(root, path[..k])
        && forall j :: 1 <= j < k ==> !CheckStorageGroup(root, path[..j])
      case None =>
        forall j :: 1 <= j <= |path| ==> !CheckStorageGroup(root, path[..j])
  {
    if path != [] && path[0] == root.name {
      FirstGroupIsFirst(root, path[1..]);
      forall j | 1 <= j <= |path| ensures KindOf(root, path[..j]) == KindAt(root, path[1..][..j - 1]) {
        assert path[..j][1..] == path[1..][..j - 1];
      }
    }
  }

  /** checkStorageGroupByPath holds exactly when some prefix of the path is a storage group. */
  lemma CheckStorageGroupByPathIff(root: MNode, path: Path)
    ensures CheckStorageGroupByPath(root, path) <==>
      exists k :: 1 <= k <= |path| && CheckStorageGroup(root, path[..k])
  {
    GroupPrefixLengthIsFirst(root, path);
  }

  /**
   * getStorageGroupNameByPath returns the storage group the path lies at or
   * under, which is the only storage group among its prefixes; it fails
   * with not-found exactly when no prefix is one.
   */
  lemma GetStorageGroupNameByPathSpec(root: MNode, path: Path)
    requires ValidTree(root)
    ensures match GetStorageGroupNameByPath(root, path)
      case Success(g) =>
        && IsPrefix(g, path) && CheckStorageGroup(root, g)
        && forall j :: 1 <= j <= |path| && CheckStorageGroup(root, path[..j]) ==> path[..j] == g
      case Failure(e) =>
        && e == PathNotFound(path)
        && forall j :: 1 <= j <= |path| ==> !CheckStorageGroup(root, path[..j])
  {
    GroupPrefixLengthIsFirst(root, path);
    match GroupPrefixLength(root, path)
    case None =>
    case Some(k) =>
      forall j | 1 <= j <= |path| && CheckStorageGroup(root, path[..j]) ensures path[..j] == path[..k] {
        if j > k {
          assert path[..k] == path[..j][..k];
          CheckStorageGroupIsExact(root, path[..k], path[..j]);
        }
      }
  }

  // ---------------------------------------------------------------------------
  // getAllStorageGroupByPath

  lemma OverlapsStep(pat: Path, rel: Path)
    requires rel != []
    ensures Overlaps(pat, rel) <==>
      (pat == [] || SegmentMatches(pat, 0, rel[0])) && Overlaps(if pat == [] then [] else pat[1..], rel[1..])
  {
    if pat != [] && SegmentMatches(pat, 0, rel[0]) && Overlaps(pat[1..], rel[1..]) {
      forall i | 0 <= i < |rel| && i < |pat| ensures SegmentMatches(pat, i, rel[i]) {
        if i > 0 {
          assert SegmentMatches(pat[1..], i - 1, rel[1..][i - 1]);
        }
      }
    }
    if pat != [] && Overlaps(pat, rel) {
      forall i | 0 <= i < |rel[1..]| && i < |pat[1..]| ensures SegmentMatches(pat[1..], i, rel[1..][i]) {
        assert SegmentMatches(pat, i + 1, rel[i + 1]);
      }
    }
  }

  /**
   * The storage groups reached from `n`, the node at `p`, by the pattern
   * `pat`: a wildcard segment, or a level past the pattern's end, follows
   * every child in order, and the walk stops at the first storage group.
   */
  function CollectGroups(n: MNode, p: Path, pat: Path): seq<Path>
    decreases n, 1
  {
    if n.kind.StorageGroup? then [p]
    else if pat == [] then CollectGroupsIn(n.children, p, [])
    else if pat[0] == Wildcard then CollectGroupsIn(n.children, p, pat[1..])
    else match Child(n.children, pat[0])
      case None => []
      case Some(c) => CollectGroups(c, p + [c.name], pat[1..])
  }

  function CollectGroupsIn(cs: seq<MNode>, p: Path, pat: Path): seq<Path>
    decreases cs, 0
  {
    if cs == [] then []
    else CollectGroups(cs[0], p + [cs[0].name], pat) + CollectGroupsIn(cs[1..], p, pat)
  }

  /** getAllStorageGroupByPath; a path that does not start at the root is not legal. */
  function GetAllStorageGroupByPath(root: MNode, pattern: Path): Result<seq<Path>, MetadataError> {
    if pattern == [] || pattern[0] != root.name then Failure(PathNotLegal(pattern))
    else Success(CollectGroups(root, [root.name], pattern[1..]))
  }

  lemma {:induction false} CollectGroupsInSpec(cs: seq<MNode>, p: Path, pat: Path, g: Path)
    ensures g in CollectGroupsIn(cs, p, pat) <==>
      exists i :: 0 <= i < |cs| && g in CollectGroups(cs[i], p + [cs[i].name], pat)
    decreases cs
  {
    if cs != [] {
      CollectGroupsInSpec(cs[1..], p, pat, g);
      if g in CollectGroupsIn(cs[1..], p, pat) {
        var i :| 0 <= i < |cs[1..]| && g in CollectGroups(cs[1..][i], p + [cs[1..][i].name], pat);
        assert cs[1..][i] == cs[i + 1];
      }
      if exists i :: 0 <= i < |cs| && g in CollectGroups(cs[i], p + [cs[i].name], pat) {
        var i :| 0 <= i < |cs| && g in CollectGroups(cs[i], p + [cs[i].name], pat);
        if i > 0 {
          assert cs[1..][i - 1] == cs[i];
        }
      }
    }
  }

  /** Every storage group collected from the node at `p` lies at or below `p`. */
  lemma {:induction false} CollectGroupsUnder(n: MNode, p: Path, pat: Path, g: Path)
    requires g in CollectGroups(n, p, pat)
    ensures IsPrefix(p, g)
    decreases n
  {
    if !n.kind.StorageGroup? {
      var pat' := if pat == [] then [] else pat[1..];
      var cs := n.children;
      var c: MNode;
      if pat == [] || pat[0] == Wildcard {
        CollectGroupsInSpec(cs, p, pat', g);
        var i :| 0 <= i < |cs| && g in CollectGroups(cs[i], p + [cs[i].name], pat');
        c := cs[i];
      } else {
        c := Child(cs, pat[0]).value;
        ChildIsElement(cs, pat[0]);
      }
      CollectGroupsUnder(c, p + [c.name], pat', g);
      assert g[..|p|] == g[..|p| + 1][..|p|];
    }
  }

  lemma {:induction false} CollectGroupsSpec(n: MNode, p: Path, pat: Path, rel: Path)
    requires WellFormed(n)
    ensures p + rel in CollectGroups(n, p, pat) <==> KindAt(n, rel) == Some(StorageGroup) && Overlaps(pat, rel)
    decreases n, 1
  {
    if n.kind.StorageGroup? {
      if rel != [] && KindAt(n, rel) == Some(StorageGroup) {
        StorageGroupsDoNotNest(n, [], rel);
      }
      assert p + rel == p <==> rel == [];
    } else {
      if pat == [] || pat[0] == Wildcard {
        CollectGroupsAll(n, p, pat, rel);
      } else {
        CollectGroupsNamed(n, p, pat, rel);
      }
    }
  }

  /** The wildcard step: some child leads to the storage group. */
  lemma {:induction false} CollectGroupsAll(n: MNode, p: Path, pat: Path, rel: Path)
    requires WellFormed(n) && !n.kind.StorageGroup? && (pat == [] || pat[0] == Wildcard)
    ensures p + rel in CollectGroups(n, p, pat) <==> KindAt(n, rel) == Some(StorageGroup) && Overlaps(pat, rel)
    decreases n, 0
  {
    var cs := n.children;
    var pat' := if pat == [] then [] else pat[1..];
    CollectGroupsInSpec(cs, p, pat', p + rel);
    if rel != [] {
      KindAtStep(n, rel);
      OverlapsStep(pat, rel);
    }
    if p + rel in CollectGroups(n, p, pat) {
      var i :| 0 <= i < |cs| && p + rel in CollectGroups(cs[i], p + [cs[i].name], pat');
      CollectGroupsUnder(cs[i], p + [cs[i].name], pat', p + rel);
      StepDown(p, cs[i].name, rel);
      CollectGroupsSpec(cs[i], p + [cs[i].name], pat', rel[1..]);
      ChildAt(cs, i);
    }
    if KindAt(n, rel) == Some(StorageGroup) && Overlaps(pat, rel) {
      ChildIsElement(cs, rel[0]);
      var i :| 0 <= i < |cs| && cs[i] == Child(cs, rel[0]).value && cs[i].name == rel[0];
      CollectGroupsSpec(cs[i], p + [cs[i].name], pat', rel[1..]);
      assert p + rel == (p + [rel[0]]) + rel[1..];
    }
  }

  /** The named step: only the child the pattern names leads to the storage group. */
  lemma {:induction false} CollectGroupsNamed(n: MNode, p: Path, pat: Path, rel: Path)
    requires WellFormed(n) && !n.kind.StorageGroup? && pat != [] && pat[0] != Wildcard
    ensures p + rel in CollectGroups(n, p, pat) <==> KindAt(n, rel) == Some(StorageGroup) && Overlaps(pat, rel)
    decreases n, 0
  {
    var cs := n.children;
    if rel != [] {
      KindAtStep(n, rel);
      OverlapsStep(pat, rel);
    }
    match Child(cs, pat[0])
    case None =>
    case Some(c) =>
      ChildIsElement(cs, pat[0]);
      if p + rel in CollectGroups(n, p, pat) {
        CollectGroupsUnder(c, p + [c.name], pat[1..], p + rel);
        StepDown(p, c.name, rel);
        CollectGroupsSpec(c, p + [c.name], pat[1..], rel[1..]);
      }
      if KindAt(n, rel) == Some(StorageGroup) && Overlaps(pat, rel) {
        CollectGroupsSpec(c, p + [c.name], pat[1..], rel[1..]);
        assert p + rel == (p + [rel[0]]) + rel[1..];
      }
  }

  /**
   * getAllStorageGroupByPath lists exactly the storage groups that agree
   * with the pattern on the segments both have: those at or below the
   * pattern's paths and the one above it.
   */
  lemma GetAllStorageGroupByPathSpec(root: MNode, pattern: Path, g: Path)
    requires ValidTree(root)
    ensures GetAllStorageGroupByPath(root, pattern).Failure? <==> pattern == [] || pattern[0] != root.name
    ensures GetAllStorageGroupByPath(root, pattern).Success? ==>
      (g in GetAllStorageGroupByPath(root, pattern).value <==> CheckStorageGroup(root, g) && Overlaps(pattern, g))
  {
    if pattern != [] && pattern[0] == root.name {
      var gs := CollectGroups(root, [root.name], pattern[1..]);
      if g in gs {
        CollectGroupsUnder(root, [root.name], pattern[1..], g);
      }
      if g != [] {
        OverlapsStep(pattern, g);
        if g[0] == root.name {
          assert g == [root.name] + g[1..];
          CollectGroupsSpec(root, [root.name], pattern[1..], g[1..]);
        }
      }
    }
  }

  // ---------------------------------------------------------------------------
  // The order of getAllStorageGroupByPath

  /**
   * Every storage group below `n`, the node at `p`, in pre-order: children in
   * the order they were added, a storage group listed where it stands.
   */
  function AllGroups(n: MNode, p: Path): seq<Path>
    decreases n, 1
  {
    if n.kind.StorageGroup? then [p] else AllGroupsIn(n.children, p)
  }

  function AllGroupsIn(cs: seq<MNode>, p: Path): seq<Path>
    decreases cs, 0
  {
    if cs == [] then [] else AllGroups(cs[0], p + [cs[0].name]) + AllGroupsIn(cs[1..], p)
  }

  /** The paths of `gs` that overlap `pattern`, in the order of `gs`. */
  function Overlapping(gs: seq<Path>, pattern: Path): (r: seq<Path>)
    ensures forall g :: g in r <==> g in gs && Overlaps(pattern, g)
  {
    if gs == [] then []
    else (if Overlaps(pattern, gs[0]) then [gs[0]] else []) + Overlapping(gs[1..], pattern)
  }

  /** No path is listed twice. */
  ghost predicate Distinct(gs: seq<Path>) {
    forall i, j :: 0 <= i < j < |gs| ==> gs[i] != gs[j]
  }

  lemma {:induction false} OverlappingConcat(a: seq<Path>, b: seq<Path>, pattern: Path)
    ensures Overlapping(a + b, pattern) == Overlapping(a, pattern) + Overlapping(b, pattern)
    decreases a
  {
    if a == [] {
      assert a + b == b;
    } else {
      var h := if Overlaps(pattern, a[0]) then [a[0]] else [];
      assert (a + b)[0] == a[0] && (a + b)[1..] == a[1..] + b;
      OverlappingConcat(a[1..], b, pattern);
      assert h + (Overlapping(a[1..], pattern) + Overlapping(b, pattern))
        == (h + Overlapping(a[1..], pattern)) + Overlapping(b, pattern);
    }
  }

  lemma DistinctConcat(a: seq<Path>, b: seq<Path>)
    requires Distinct(a) && Distinct(b)
    requires forall g :: g in a ==> g !in b
    ensures Distinct(a + b)
  {
    forall i, j | 0 <= i < j < |a + b|
      ensures (a + b)[i] != (a + b)[j]
    {
      if i < |a| && j >= |a| {
        assert (a + b)[i] in a && (a + b)[j] in b;
      } else if i >= |a| {
        assert (a + b)[i] == b[i - |a|] && (a + b)[j] == b[j - |a|];
      }
    }
  }

  lemma {:induction false} OverlappingDistinct(gs: seq<Path>, pattern: Path)
    requires Distinct(gs)
    ensures Distinct(Overlapping(gs, pattern))
    decreases gs
  {
    if gs != [] {
      assert Distinct(gs[1..]);
      OverlappingDistinct(gs[1..], pattern);
      assert gs[0] !in gs[1..];
      DistinctConcat(if Overlaps(pattern, gs[0]) then [gs[0]] else [], Overlapping(gs[1..], pattern));
    }
  }

  lemma {:induction false} AllGroupsUnder(n: MNode, p: Path, g: Path)
    requires g in AllGroups(n, p)
    ensures IsPrefix(p, g)
    decreases n, 1
  {
    if !n.kind.StorageGroup? {
      var i := AllGroupsInUnder(n.children, p, g);
      assert g[..|p|] == g[..|p| + 1][..|p|];
    }
  }

  /** A path listed below a child list lies below one of the children. */
  lemma {:induction false} AllGroupsInUnder(cs: seq<MNode>, p: Path, g: Path) returns (i: nat)
    requires g in AllGroupsIn(cs, p)
    ensures i < |cs| && IsPrefix(p + [cs[i].name], g)
    decreases cs, 0
  {
    if g in AllGroups(cs[0], p + [cs[0].name]) {
      AllGroupsUnder(cs[0], p + [cs[0].name], g);
      i := 0;
    } else {
      var j := AllGroupsInUnder(cs[1..], p, g);
      i := j + 1;
    }
  }

  /** No storage group is listed twice. */
  lemma {:induction false} AllGroupsDistinct(n: MNode, p: Path)
    requires WellFormed(n)
    ensures Distinct(AllGroups(n, p))
    decreases n, 1
  {
    if !n.kind.StorageGroup? {
      AllGroupsInDistinct(n.children, p);
    }
  }

  lemma {:induction false} AllGroupsInDistinct(cs: seq<MNode>, p: Path)
    requires UniqueNames(cs) && forall i :: 0 <= i < |cs| ==> WellFormed(cs[i])
    ensures Distinct(AllGroupsIn(cs, p))
    decreases cs, 0
  {
    if cs != [] {
      var a := AllGroups(cs[0], p + [cs[0].name]);
      var b := AllGroupsIn(cs[1..], p);
      AllGroupsDistinct(cs[0], p + [cs[0].name]);
      AllGroupsInDistinct(cs[1..], p);
      forall g | g in b
        ensures |g| > |p| && g[|p|] != cs[0].name
      {
        var j := AllGroupsInUnder(cs[1..], p, g);
        assert g[|p|] == cs[j + 1].name;
      }
      forall g | g in a
        ensures |g| > |p| && g[|p|] == cs[0].name
      {
        AllGroupsUnder(cs[0], p + [cs[0].name], g);
      }
      DistinctConcat(a, b);
    }
  }

  /** Nothing below the node at `p` overlaps a pattern whose segment at `p`'s last position rules `p` out. */
  lemma {:induction false} OverlappingNoneBelow(n: MNode, p: Path, pattern: Path)
    requires 1 <= |p| <= |pattern| && !SegmentMatches(pattern, |p| - 1, p[|p| - 1])
    ensures Overlapping(AllGroups(n, p), pattern) == []
  {
    var gs := AllGroups(n, p);
    forall g | g in gs
      ensures !Overlaps(pattern, g)
    {
      AllGroupsUnder(n, p, g);
      assert g[|p| - 1] == p[|p| - 1];
    }
    NoneOverlapping(gs, pattern);
  }

  lemma {:induction false} NoneOverlapping(gs: seq<Path>, pattern: Path)
    requires forall g :: g in gs ==> !Overlaps(pattern, g)
    ensures Overlapping(gs, pattern) == []
    decreases gs
  {
    if gs != [] {
      assert gs[0] in gs;
      NoneOverlapping(gs[1..], pattern);
    }
  }

  /** A pattern segment naming one child keeps only what lies below that child. */
  lemma {:induction false} OnlyNamedChild(cs: seq<MNode>, p: Path, pattern: Path)
    requires UniqueNames(cs) && |p| < |pattern| && pattern[|p|] != Wildcard
    ensures Overlapping(AllGroupsIn(cs, p), pattern) ==
      match Child(cs, pattern[|p|])
      case None => []
      case Some(c) => Overlapping(AllGroups(c, p + [c.name]), pattern)
    decreases cs
  {
    var y := pattern[|p|];
    if cs != [] {
      var x := cs[0].name;
      var first := Overlapping(AllGroups(cs[0], p + [x]), pattern);
      var rest := Overlapping(AllGroupsIn(cs[1..], p), pattern);
      OverlappingConcat(AllGroups(cs[0], p + [x]), AllGroupsIn(cs[1..], p), pattern);
      assert Overlapping(AllGroupsIn(cs, p), pattern) == first + rest;
      assert UniqueNames(cs[1..]);
      OnlyNamedChild(cs[1..], p, pattern);
      if x == y {
        ChildOfFirst(cs);
        assert rest == [];
      } else {
        assert (p + [x])[|p|] == x;
        OverlappingNoneBelow(cs[0], p + [x], pattern);
        ChildPastFirst(cs, y);
      }
    }
  }

  lemma ChildOfFirst(cs: seq<MNode>)
    requires UniqueNames(cs) && cs != []
    ensures Child(cs, cs[0].name) == Some(cs[0]) && Child(cs[1..], cs[0].name).None?
  {
    var y := cs[0].name;
    forall j | 0 <= j < |cs[1..]|
      ensures cs[1..][j].name != y
    {
      assert cs[1..][j] == cs[j + 1];
    }
  }

  lemma ChildPastFirst(cs: seq<MNode>, y: string)
    requires cs != [] && cs[0].name != y
    ensures Child(cs, y) == Child(cs[1..], y)
  {
    match ChildIndex(cs[1..], y)
    case None =>
    case Some(k) =>
      assert cs[1..][k] == cs[k + 1];
  }

  /**
   * Collecting from the node at `p` with the rest `pat` of the pattern
   * `pattern` keeps, in order, the listed storage groups that overlap it.
   */
  lemma {:induction false} CollectGroupsFilters(n: MNode, p: Path, pat: Path, pattern: Path)
    requires WellFormed(n) && Overlaps(pattern, p)
    requires pat == if |pattern| >= |p| then pattern[|p|..] else []
    ensures CollectGroups(n, p, pat) == Overlapping(AllGroups(n, p), pattern)
    decreases n, 1
  {
    var cs := n.children;
    if n.kind.StorageGroup? {
      assert [p][1..] == [];
    } else if pat == [] || pat[0] == Wildcard {
      var pat' := if pat == [] then [] else pat[1..];
      forall i | 0 <= i < |cs|
        ensures Overlaps(pattern, p + [cs[i].name])
      {
        forall j | 0 <= j < |p| + 1 && j < |pattern|
          ensures SegmentMatches(pattern, j, (p + [cs[i].name])[j])
        {
          if j < |p| {
            assert (p + [cs[i].name])[j] == p[j];
          }
        }
      }
      CollectGroupsInFilters(cs, p, pat', pattern);
    } else {
      OnlyNamedChild(cs, p, pattern);
      match Child(cs, pat[0])
      case None =>
      case Some(c) =>
        ChildIsElement(cs, pat[0]);
        assert Overlaps(pattern, p + [c.name]) by {
          forall j | 0 <= j < |p| + 1 && j < |pattern|
            ensures SegmentMatches(pattern, j, (p + [c.name])[j])
          {
            if j < |p| {
              assert (p + [c.name])[j] == p[j];
            }
          }
        }
        CollectGroupsFilters(c, p + [c.name], pat[1..], pattern);
    }
  }

  lemma {:induction false} CollectGroupsInFilters(cs: seq<MNode>, p: Path, pat: Path, pattern: Path)
    requires forall i :: 0 <= i < |cs| ==> WellFormed(cs[i]) && Overlaps(pattern, p + [cs[i].name])
    requires pat == if |pattern| >= |p| + 1 then pattern[|p| + 1..] else []
    ensures CollectGroupsIn(cs, p, pat) == Overlapping(AllGroupsIn(cs, p), pattern)
    decreases cs, 0
  {
    if cs != [] {
      CollectGroupsFilters(cs[0], p + [cs[0].name], pat, pattern);
      CollectGroupsInFilters(cs[1..], p, pat, pattern);
      OverlappingConcat(AllGroups(cs[0], p + [cs[0].name]), AllGroupsIn(cs[1..], p), pattern);
    }
  }

  /** Without a pattern to narrow it, the listing holds exactly the storage groups. */
  lemma AllGroupsSpec(root: MNode, g: Path)
    requires ValidTree(root)
    ensures g in AllGroups(root, [root.name]) <==> CheckStorageGroup(root, g)
  {
    var pattern := [root.name];
    CollectGroupsFilters(root, [root.name], [], pattern);
    GetAllStorageGroupByPathSpec(root, pattern, g);
    if g in AllGroups(root, [root.name]) {
      AllGroupsUnder(root, [root.name], g);
    }
  }

  /**
   * getAllStorageGroupByPath lists the storage groups that overlap the
   * pattern in pre-order, each once.
   */
  lemma GetAllStorageGroupByPathOrder(root: MNode, pattern: Path)
    requires ValidTree(root) && GetAllStorageGroupByPath(root, pattern).Success?
    ensures GetAllStorageGroupByPath(root, pattern).value == Overlapping(AllGroups(root, [root.name]), pattern)
    ensures Distinct(GetAllStorageGroupByPath(root, pattern).value)
  {
    CollectGroupsFilters(root, [root.name], pattern[1..], pattern);
    AllGroupsDistinct(root, [root.name]);
    OverlappingDistinct(AllGroups(root, [root.name]), pattern);
  }

  // ---------------------------------------------------------------------------
  // getAllPath

  /** The first storage group on the way from `n`, the node at `p`, along `rel`, unless `sg` already names one. */
  function GroupOn(n: MNode, p: Path, rel: Path, sg: Option<Path>): Option<Path> {
    if sg.Some? then sg
    else match FirstGroup(n, rel)
      case None => None
      case Some(k) => Some(p + rel[..k])
  }

  /** The storage group `path` lies at or under, the key getAllPath files it under. */
  function GroupOf(root: MNode, path: Path): Option<Path> {
    match GroupPrefixLength(root, path)
    case None => None
    case Some(k) => Some(path[..k])
  }

  /**
   * The measurements below `n`, the node at `p`, whose relative paths match
   * `pat` segment for segment, in child order, each paired with the first
   * storage group above it (`sg` is the one met above `n`, if any).
   */
  function MatchLeaves(n: MNode, p: Path, pat: Path, sg: Option<Path>): seq<(Option<Path>, Path)>
    decreases n, 1
  {
    var sg' := if sg.None? && n.kind.StorageGroup? then Some(p) else sg;
    if n.kind.Measurement? then (if pat == [] then [(sg', p)] else [])
    else if pat == [] then []
    else if pat[0] == Wildcard then MatchLeavesIn(n.children, p, pat[1..], sg')
    else match Child(n.children, pat[0])
      case None => []
      case Some(c) => MatchLeaves(c, p + [c.name], pat[1..], sg')
  }

  function MatchLeavesIn(cs: seq<MNode>, p: Path, pat: Path, sg: Option<Path>): seq<(Option<Path>, Path)>
    decreases cs, 0
  {
    if cs == [] then []
    else MatchLeaves(cs[0], p + [cs[0].name], pat, sg) + MatchLeavesIn(cs[1..], p, pat, sg)
  }

  /** The paths filed under key `g`, in the order they were matched. */
  function Select(ms: seq<(Option<Path>, Path)>, g: Option<Path>): seq<Path>
    decreases |ms|
  {
    if ms == [] then []
    else Select(ms[..|ms| - 1], g) + (if ms[|ms| - 1].0 == g then [ms[|ms| - 1].1] else [])
  }

  /** Files each matched path under its storage group, keeping the match order. */
  function Group(ms: seq<(Option<Path>, Path)>): (m: map<Option<Path>, seq<Path>>)
    ensures forall g :: g in m <==> Select(ms, g) != []
    ensures forall g :: g in m ==> m[g] == Select(ms, g)
    decreases |ms|
  {
    if ms == [] then map[]
    else
      var m := Group(ms[..|ms| - 1]);
      var last := ms[|ms| - 1];
      m[last.0 := (if last.0 in m then m[last.0] else []) + [last.1]]
  }

  /** getAllPath; a path that does not start at the root is not legal. */
  function GetAllPath(root: MNode, pattern: Path): Result<map<Option<Path>, seq<Path>>, MetadataError> {
    if pattern == [] || pattern[0] != root.name then Failure(PathNotLegal(pattern))
    else Success(Group(MatchLeaves(root, [root.name], pattern[1..], None)))
  }

  lemma {:induction false} SelectSpec(ms: seq<(Option<Path>, Path)>, g: Option<Path>, q: Path)
    ensures q in Select(ms, g) <==> (g, q) in ms
    decreases |ms|
  {
    if ms != [] {
      var init := ms[..|ms| - 1];
      SelectSpec(init, g, q);
      assert ms == init + [ms[|ms| - 1]];
    }
  }

  lemma MatchesPatternStep(pat: Path, rel: Path)
    requires pat != [] && rel != []
    ensures MatchesPattern(pat, rel) <==> SegmentMatches(pat, 0, rel[0]) && MatchesPattern(pat[1..], rel[1..])
  {
    if SegmentMatches(pat, 0, rel[0]) && MatchesPattern(pat[1..], rel[1..]) {
      forall i | 0 <= i < |rel| ensures SegmentMatches(pat, i, rel[i]) {
        if i > 0 {
          assert SegmentMatches(pat[1..], i - 1, rel[1..][i - 1]);
        }
      }
    }
    if MatchesPattern(pat, rel) {
      forall i | 0 <= i < |rel[1..]| ensures SegmentMatches(pat[1..], i, rel[1..][i]) {
        assert SegmentMatches(pat, i + 1, rel[i + 1]);
      }
    }
  }

  lemma {:induction false} MatchLeavesInSpec(cs: seq<MNode>, p: Path, pat: Path, sg: Option<Path>, m: (Option<Path>, Path))
    ensures m in MatchLeavesIn(cs, p, pat, sg) <==>
      exists i :: 0 <= i < |cs| && m in MatchLeaves(cs[i], p + [cs[i].name], pat, sg)
    decreases cs
  {
    if cs != [] {
      MatchLeavesInSpec(cs[1..], p, pat, sg, m);
      if m in MatchLeavesIn(cs[1..], p, pat, sg) {
        var i :| 0 <= i < |cs[1..]| && m in MatchLeaves(cs[1..][i], p + [cs[1..][i].name], pat, sg);
        assert cs[1..][i] == cs[i + 1];
      }
      if exists i :: 0 <= i < |cs| && m in MatchLeaves(cs[i], p + [cs[i].name], pat, sg) {
        var i :| 0 <= i < |cs| && m in MatchLeaves(cs[i], p + [cs[i].name], pat, sg);
        if i > 0 {
          assert cs[1..][i - 1] == cs[i];
        }
      }
    }
  }

  /** Every path matched from the node at `p` lies at or below `p`. */
  lemma {:induction false} MatchLeavesUnder(n: MNode, p: Path, pat: Path, sg: Option<Path>, m: (Option<Path>, Path))
    requires m in MatchLeaves(n, p, pat, sg)
    ensures IsPrefix(p, m.1)
    decreases n
  {
    if !n.kind.Measurement? {
      var sg' := if sg.None? && n.kind.StorageGroup? then Some(p) else sg;
      var cs := n.children;
      var c: MNode;
      if pat[0] == Wildcard {
        MatchLeavesInSpec(cs, p, pat[1..], sg', m);
        var i :| 0 <= i < |cs| && m in MatchLeaves(cs[i], p + [cs[i].name], pat[1..], sg');
        c := cs[i];
      } else {
        c := Child(cs, pat[0]).value;
        ChildIsElement(cs, pat[0]);
      }
      MatchLeavesUnder(c, p + [c.name], pat[1..], sg', m);
      assert m.1[..|p|] == m.1[..|p| + 1][..|p|];
    }
  }

  /** One step down: the group seen from the child is the group seen from the parent. */
  lemma GroupOnStep(n: MNode, p: Path, rel: Path, sg: Option<Path>, c: MNode)
    requires rel != [] && Child(n.children, rel[0]) == Some(c)
    ensures GroupOn(n, p, rel, sg) ==
      GroupOn(c, p + [rel[0]], rel[1..], if sg.None? && n.kind.StorageGroup? then Some(p) else sg)
  {
    if sg.None? {
      if n.kind.StorageGroup? {
        assert FirstGroup(n, rel) == Some(0);
        assert p + rel[..0] == p;
      } else {
        match FirstGroup(c, rel[1..])
        case None =>
        case Some(k) =>
          assert FirstGroup(n, rel) == Some(k + 1);
          assert p + rel[..k + 1] == p + [rel[0]] + rel[1..][..k];
      }
    }
  }

  /** A measurement `p + rel` below `n` is listed, with key `g`, exactly when it matches and `g` is its group. */
  ghost predicate IsMatch(n: MNode, p: Path, pat: Path, sg: Option<Path>, rel: Path, g: Option<Path>) {
    && MatchesPattern(pat, rel)
    && KindAt(n, rel).Some? && KindAt(n, rel).value.Measurement?
    && g == GroupOn(n, p, rel, sg)
  }

  lemma {:induction false} MatchLeavesSpec(n: MNode, p: Path, pat: Path, sg: Option<Path>, rel: Path, g: Option<Path>)
    requires WellFormed(n)
    ensures (g, p + rel) in MatchLeaves(n, p, pat, sg) <==> IsMatch(n, p, pat, sg, rel, g)
    decreases n, 1
  {
    if n.kind.Measurement? {
      if rel != [] {
        KindAtStep(n, rel);
      }
      assert p + rel == p <==> rel == [];
    } else if pat == [] {
    } else if pat[0] == Wildcard {
      MatchLeavesAll(n, p, pat, sg, rel, g);
    } else {
      MatchLeavesNamed(n, p, pat, sg, rel, g);
    }
  }

  /** The wildcard step: some child leads to the measurement. */
  lemma {:induction false} MatchLeavesAll(n: MNode, p: Path, pat: Path, sg: Option<Path>, rel: Path, g: Option<Path>)
    requires WellFormed(n) && !n.kind.Measurement? && pat != [] && pat[0] == Wildcard
    ensures (g, p + rel) in MatchLeaves(n, p, pat, sg) <==> IsMatch(n, p, pat, sg, rel, g)
    decreases n, 0
  {
    var cs := n.children;
    var sg' := if sg.None? && n.kind.StorageGroup? then Some(p) else sg;
    MatchLeavesInSpec(cs, p, pat[1..], sg', (g, p + rel));
    if rel != [] {
      KindAtStep(n, rel);
      MatchesPatternStep(pat, rel);
    }
    if (g, p + rel) in MatchLeaves(n, p, pat, sg) {
      var i :| 0 <= i < |cs| && (g, p + rel) in MatchLeaves(cs[i], p + [cs[i].name], pat[1..], sg');
      MatchLeavesUnder(cs[i], p + [cs[i].name], pat[1..], sg', (g, p + rel));
      StepDown(p, cs[i].name, rel);
      MatchLeavesSpec(cs[i], p + [cs[i].name], pat[1..], sg', rel[1..], g);
      ChildAt(cs, i);
      GroupOnStep(n, p, rel, sg, cs[i]);
    }
    if IsMatch(n, p, pat, sg, rel, g) {
      assert rel != [];
      ChildIsElement(cs, rel[0]);
      var i :| 0 <= i < |cs| && cs[i] == Child(cs, rel[0]).value && cs[i].name == rel[0];
      MatchLeavesSpec(cs[i], p + [cs[i].name], pat[1..], sg', rel[1..], g);
      GroupOnStep(n, p, rel, sg, cs[i]);
      assert p + rel == (p + [rel[0]]) + rel[1..];
    }
  }

  /** The named step: only the child the pattern names leads to the measurement. */
  lemma {:induction false} MatchLeavesNamed(n: MNode, p: Path, pat: Path, sg: Option<Path>, rel: Path, g: Option<Path>)
    requires WellFormed(n) && !n.kind.Measurement? && pat != [] && pat[0] != Wildcard
    ensures (g, p + rel) in MatchLeaves(n, p, pat, sg) <==> IsMatch(n, p, pat, sg, rel, g)
    decreases n, 0
  {
    var cs := n.children;
    var sg' := if sg.None? && n.kind.StorageGroup? then Some(p) else sg;
    if rel != [] {
      KindAtStep(n, rel);
      MatchesPatternStep(pat, rel);
    }
    match Child(cs, pat[0])
    case None =>
    case Some(c) =>
      ChildIsElement(cs, pat[0]);
      if (g, p + rel) in MatchLeaves(n, p, pat, sg) {
        MatchLeavesUnder(c, p + [c.name], pat[1..], sg', (g, p + rel));
        StepDown(p, c.name, rel);
        MatchLeavesSpec(c, p + [c.name], pat[1..], sg', rel[1..], g);
        GroupOnStep(n, p, rel, sg, c);
      }
      if IsMatch(n, p, pat, sg, rel, g) {
        assert rel != [];
        MatchLeavesSpec(c, p + [c.name], pat[1..], sg', rel[1..], g);
        GroupOnStep(n, p, rel, sg, c);
        assert p + rel == (p + [rel[0]]) + rel[1..];
      }
  }

  /** The map getAllPath builds holds exactly the matched pairs, and no empty list. */
  lemma GroupSpec(ms: seq<(Option<Path>, Path)>, g: Option<Path>, q: Path)
    ensures g in Group(ms) && q in Group(ms)[g] <==> (g, q) in ms
    ensures g in Group(ms) ==> Group(ms)[g] != []
  {
    SelectSpec(ms, g, q);
  }

  /** `q` is a measurement matching `pattern` whose storage group is `g`. */
  ghost predicate IsListedLeaf(root: MNode, pattern: Path, q: Path, g: Option<Path>) {
    && MatchesPattern(pattern, q)
    && KindOf(root, q).Some? && KindOf(root, q).value.Measurement?
    && g == GroupOf(root, q)
  }

  lemma MatchLeavesRoot(root: MNode, pattern: Path, g: Option<Path>, q: Path)
    requires ValidTree(root) && pattern != [] && pattern[0] == root.name
    ensures (g, q) in MatchLeaves(root, [root.name], pattern[1..], None) <==> IsListedLeaf(root, pattern, q, g)
  {
    if (g, q) in MatchLeaves(root, [root.name], pattern[1..], None) {
      MatchLeavesUnder(root, [root.name], pattern[1..], None, (g, q));
    }
    if q != [] && q[0] == root.name {
      MatchesPatternStep(pattern, q);
      assert q == [root.name] + q[1..];
      MatchLeavesSpec(root, [root.name], pattern[1..], None, q[1..], g);
      GroupOnRoot(root, q);
    }
  }

  /**
   * getAllPath files a path under key `g` exactly when the path is a
   * measurement, matches the pattern segment for segment, and `g` is the
   * storage group it lies under (None when it lies under none); every key
   * holds at least one path.
   */
  lemma GetAllPathSpec(root: MNode, pattern: Path, g: Option<Path>, q: Path)
    requires ValidTree(root)
    ensures GetAllPath(root, pattern).Failure? <==> pattern == [] || pattern[0] != root.name
    ensures GetAllPath(root, pattern).Success? ==>
      && (g in GetAllPath(root, pattern).value ==> GetAllPath(root, pattern).value[g] != [])
      && (g in GetAllPath(root, pattern).value && q in GetAllPath(root, pattern).value[g] <==>
            IsListedLeaf(root, pattern, q, g))
  {
    if pattern != [] && pattern[0] == root.name {
      var ms := MatchLeaves(root, [root.name], pattern[1..], None);
      GroupSpec(ms, g, q);
      MatchLeavesRoot(root, pattern, g, q);
    }
  }

  lemma GroupOnRoot(root: MNode, q: Path)
    requires q != [] && q[0] == root.name
    ensures GroupOn(root, [root.name], q[1..], None) == GroupOf(root, q)
  {
    match FirstGroup(root, q[1..])
    case None =>
    case Some(k) =>
      assert [root.name] + q[1..][..k] == q[..k + 1];
  }
}
