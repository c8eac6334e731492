/**
 * Nodes of the metadata tree and the lookups that every tree operation shares.
 *
 * A node is a plain namespace level, a storage-group marker or a measurement
 * leaf; children are kept in insertion order and looked up by name.
 */
module MNodes {
  import opened Wrappers
  import opened Paths
  import opened TsTypes

  /** The schema of a series; encodings and compressors by their enum constant names. */
  datatype Schema = Schema(dataType: DataType, encoding: string, compressor: string, props: map<string, string>)

  datatype Kind = Internal | StorageGroup | Measurement(schema: Schema)

  datatype MNode = MNode(name: string, kind: Kind, children: seq<MNode>)

  /** Position of the first child called `name`. */
  function ChildIndex(cs: seq<MNode>, name: string): (r: Option<nat>)
    ensures r.Some? ==> r.value < |cs| && cs[r.value].name == name
    ensures r.Some? ==> forall j :: 0 <= j < r.value ==> cs[j].name != name
    ensures r.None? ==> forall j :: 0 <= j < |cs| ==> cs[j].name != name
  {
    if cs == [] then None
    else if cs[0].name == name then Some(0)
    else match ChildIndex(cs[1..], name)
      case None => None
      case Some(k) => Some(k + 1)
  }

  /** The child called `name`, if there is one. */
  function Child(cs: seq<MNode>, name: string): Option<MNode> {
    match ChildIndex(cs, name)
    case None => None
    case Some(k) => Some(cs[k])
  }

  /** The node reached from `n` by following the names in `rel`. */
  function Find(n: MNode, rel: Path): Option<MNode>
    decreases rel
  {
    if rel == [] then Some(n)
    else match Child(n.children, rel[0])
      case None => None
      case Some(c) => Find(c, rel[1..])
  }

  function KindAt(n: MNode, rel: Path): Option<Kind> {
    match Find(n, rel)
    case None => None
    case Some(m) => Some(m.kind)
  }

  /** The node at the absolute `path` of the tree whose root is `root`. */
  function Resolve(root: MNode, path: Path): Option<MNode> {
    if path == [] || path[0] != root.name then None else Find(root, path[1..])
  }

  /** The kind of the node at the absolute `path`, if it exists. */
  function KindOf(root: MNode, path: Path): Option<Kind> {
    if path == [] || path[0] != root.name then None else KindAt(root, path[1..])
  }

  function RemoveAt(cs: seq<MNode>, k: nat): seq<MNode>
    requires k < |cs|
  {
    cs[..k] + cs[k + 1..]
  }

  ghost predicate UniqueNames(cs: seq<MNode>) {
    forall i, j :: 0 <= i < j < |cs| ==> cs[i].name != cs[j].name
  }

  /** `n` or a node below it is a storage group. */
  predicate HasStorageGroup(n: MNode)
    decreases n
  {
    n.kind.StorageGroup? || AnyStorageGroup(n.children)
  }

  predicate AnyStorageGroup(cs: seq<MNode>)
    decreases cs
  {
    cs != [] && (HasStorageGroup(cs[0]) || AnyStorageGroup(cs[1..]))
  }

  /**
   * The invariants of every subtree: sibling names are unique, nothing hangs
   * under a measurement, and no storage group lies below another one.
   */
  ghost predicate WellFormed(n: MNode)
    decreases n
  {
    && UniqueNames(n.children)
    && (n.kind.Measurement? ==> n.children == [])
    && (n.kind.StorageGroup? ==> !AnyStorageGroup(n.children))
    && forall i :: 0 <= i < |n.children| ==> WellFormed(n.children[i])
  }

  /** A whole tree: a plain root node over a well-formed subtree. */
  ghost predicate ValidTree(root: MNode) {
    root.kind.Internal? && WellFormed(root)
  }

  // ---------------------------------------------------------------------------
  // Child lookup after the three ways the operations change a child list.

  /** The first child with a name is the one lookup returns. */
  lemma ChildIndexIsFirst(cs: seq<MNode>, x: string, i: nat)
    requires i < |cs| && cs[i].name == x
    requires forall j :: 0 <= j < i ==> cs[j].name != x
    ensures ChildIndex(cs, x) == Some(i)
  {
  }

  lemma ChildAt(cs: seq<MNode>, i: nat)
    requires UniqueNames(cs) && i < |cs|
    ensures Child(cs, cs[i].name) == Some(cs[i])
  {
    ChildIndexIsFirst(cs, cs[i].name, i);
  }

  lemma ChildAfterReplace(cs: seq<MNode>, k: nat, c: MNode, x: string)
    requires UniqueNames(cs) && k < |cs| && c.name == cs[k].name
    ensures UniqueNames(cs[k := c])
    ensures Child(cs[k := c], x) == if x == cs[k].name then Some(c) else Child(cs, x)
  {
    var ds := cs[k := c];
    if x == cs[k].name {
      ChildAt(ds, k);
    } else {
      match ChildIndex(cs, x)
      case None =>
        assert forall j :: 0 <= j < |ds| ==> ds[j].name != x;
      case Some(i) =>
        ChildAt(ds, i);
    }
  }

  lemma ChildAfterAppend(cs: seq<MNode>, c: MNode, x: string)
    requires Child(cs, c.name).None?
    ensures UniqueNames(cs) ==> UniqueNames(cs + [c])
    ensures Child(cs + [c], x) == if x == c.name then Some(c) else Child(cs, x)
  {
    var ds := cs + [c];
    match ChildIndex(cs, x)
    case None =>
      if x == c.name {
        ChildIndexIsFirst(ds, x, |cs|);
      } else {
        assert forall j :: 0 <= j < |ds| ==> ds[j].name != x;
      }
    case Some(i) =>
      ChildIndexIsFirst(ds, x, i);
  }

  lemma ChildAfterRemove(cs: seq<MNode>, k: nat, x: string)
    requires UniqueNames(cs) && k < |cs|
    ensures UniqueNames(RemoveAt(cs, k))
    ensures Child(RemoveAt(cs, k), x) == if x == cs[k].name then None else Child(cs, x)
  {
    var ds := RemoveAt(cs, k);
    assert forall j :: 0 <= j < |ds| ==> ds[j] == if j < k then cs[j] else cs[j + 1];
    if x == cs[k].name {
      assert forall j :: 0 <= j < |ds| ==> ds[j].name != x;
    } else {
      match ChildIndex(cs, x)
      case None =>
        assert forall j :: 0 <= j < |ds| ==> ds[j].name != x;
      case Some(i) =>
        ChildAt(ds, if i < k then i else i - 1);
    }
  }

  // ---------------------------------------------------------------------------
  // Paths and subtrees.

  lemma {:induction false} FindConcat(n: MNode, p: Path, q: Path)
    ensures Find(n, p + q) == match Find(n, p) case None => None case Some(m) => Find(m, q)
    decreases p
  {
    if p == [] {
      assert p + q == q;
    } else {
      assert (p + q)[0] == p[0] && (p + q)[1..] == p[1..] + q;
      match Child(n.children, p[0])
      case None =>
      case Some(c) => FindConcat(c, p[1..], q);
    }
  }

  /** The ancestors of an existing node exist. */
  lemma AncestorExists(n: MNode, p: Path, q: Path)
    requires IsPrefix(p, q) && Find(n, q).Some?
    ensures Find(n, p).Some?
  {
    assert q == p + q[|p|..];
    FindConcat(n, p, q[|p|..]);
  }

  lemma {:induction false} FindWellFormed(n: MNode, rel: Path)
    requires WellFormed(n) && Find(n, rel).Some?
    ensures WellFormed(Find(n, rel).value)
    decreases rel
  {
    if rel != [] {
      var c := Child(n.children, rel[0]).value;
      FindWellFormed(c, rel[1..]);
    }
  }

  /** Nothing lies below a measurement. */
  lemma NothingBelowMeasurement(n: MNode, p: Path, q: Path)
    requires WellFormed(n) && IsStrictPrefix(p, q)
    requires KindAt(n, p).Some? && KindAt(n, p).value.Measurement?
    ensures Find(n, q).None?
  {
    assert q == p + q[|p|..];
    FindConcat(n, p, q[|p|..]);
    FindWellFormed(n, p);
  }

  lemma {:induction false} AnyStorageGroupAt(cs: seq<MNode>, i: nat)
    requires i < |cs| && HasStorageGroup(cs[i])
    ensures AnyStorageGroup(cs)
    decreases i
  {
    if i > 0 {
      AnyStorageGroupAt(cs[1..], i - 1);
    }
  }

  /** A subtree without a storage group has no storage group at any path. */
  lemma {:induction false} NoStorageGroupBelow(n: MNode, rel: Path)
    requires !HasStorageGroup(n)
    ensures KindAt(n, rel) != Some(StorageGroup)
    decreases rel
  {
    if rel != [] {
      match Child(n.children, rel[0])
      case None =>
      case Some(c) =>
        var i := ChildIndex(n.children, rel[0]).value;
        if HasStorageGroup(c) {
          AnyStorageGroupAt(n.children, i);
        }
        NoStorageGroupBelow(c, rel[1..]);
    }
  }

  /** Storage groups do not nest: none lies strictly below another. */
  lemma {:induction false} StorageGroupsDoNotNest(n: MNode, p: Path, q: Path)
    requires WellFormed(n) && IsStrictPrefix(p, q)
    requires KindAt(n, p) == Some(StorageGroup)
    ensures KindAt(n, q) != Some(StorageGroup)
  {
    assert q == p + q[|p|..];
    FindConcat(n, p, q[|p|..]);
    FindWellFormed(n, p);
    var g := Find(n, p).value;
    var rest := q[|p|..];
    match Child(g.children, rest[0])
    case None =>
    case Some(c) =>
      var i := ChildIndex(g.children, rest[0]).value;
      if HasStorageGroup(c) {
        AnyStorageGroupAt(g.children, i);
      }
      NoStorageGroupBelow(c, rest[1..]);
  }

  // ---------------------------------------------------------------------------
  // One step of a walk.

  lemma KindAtStep(n: MNode, rel: Path)
    requires rel != []
    ensures KindAt(n, rel) == match Child(n.children, rel[0]) case None => None case Some(c) => KindAt(c, rel[1..])
  {
  }

  lemma PrefixStep(p: Path, q: Path)
    requires p != [] && q != [] && p[0] == q[0]
    ensures p == q <==> p[1..] == q[1..]
    ensures IsPrefix(p, q) <==> IsPrefix(p[1..], q[1..])
    ensures IsStrictPrefix(p, q) <==> IsStrictPrefix(p[1..], q[1..])
  {
    if p[1..] == q[1..] {
      assert p == [p[0]] + p[1..] && q == [q[0]] + q[1..];
    }
    if IsPrefix(p[1..], q[1..]) {
      assert q[..|p|] == [q[0]] + q[1..][..|p| - 1];
      assert p == [p[0]] + p[1..];
    }
    if IsPrefix(p, q) {
      assert q[1..][..|p| - 1] == q[..|p|][1..];
    }
  }

  /** Extending `p` by one segment and then by `rel`: the path one level down. */
  lemma StepDown(p: Path, x: string, rel: Path)
    requires IsPrefix(p + [x], p + rel)
    ensures rel != [] && rel[0] == x && p + rel == (p + [x]) + rel[1..]
  {
    assert (p + rel)[|p|] == rel[0];
    assert (p + [x])[|p|] == x;
  }

  /** The child called `x` is one of the children. */
  lemma ChildIsElement(cs: seq<MNode>, x: string)
    requires Child(cs, x).Some?
    ensures exists i :: 0 <= i < |cs| && cs[i] == Child(cs, x).value && cs[i].name == x
  {
    var i := ChildIndex(cs, x).value;
    assert cs[i] == Child(cs, x).value;
  }

  lemma {:induction false} AnyStorageGroupIff(cs: seq<MNode>)
    ensures AnyStorageGroup(cs) <==> exists i :: 0 <= i < |cs| && HasStorageGroup(cs[i])
    decreases cs
  {
    if cs != [] {
      AnyStorageGroupIff(cs[1..]);
      if AnyStorageGroup(cs[1..]) {
        var i :| 0 <= i < |cs[1..]| && HasStorageGroup(cs[1..][i]);
        assert HasStorageGroup(cs[i + 1]);
      }
      if exists i :: 0 <= i < |cs| && HasStorageGroup(cs[i]) {
        var i :| 0 <= i < |cs| && HasStorageGroup(cs[i]);
        if i > 0 {
          assert HasStorageGroup(cs[1..][i - 1]);
        }
      }
    }
  }
}
