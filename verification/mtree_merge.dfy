/**
 * The union of metadata trees built apart (combineMetadataInStrings), on
 * tree values rather than on their text: nodes at the same path are merged,
 * children keep the order in which the inputs first show them, and two
 * inputs that disagree on a node are rejected with the node's path.
 */
module MTreeMerge {
  import opened Wrappers
  import opened Paths
  import opened MNodes

  /** The kind of a node present in both inputs, or None when they disagree. */
  function JoinKind(x: Kind, y: Kind): Option<Kind> {
    if x.Measurement? || y.Measurement? then (if x == y then Some(x) else None)
    else if x.StorageGroup? || y.StorageGroup? then Some(StorageGroup)
    else Some(Internal)
  }

  /** The kind at a path of the union, from the kinds of the two inputs there. */
  function JoinAt(x: Option<Kind>, y: Option<Kind>): Option<Kind> {
    match (x, y)
    case (None, _) => y
    case (_, None) => x
    case (Some(u), Some(v)) => JoinKind(u, v)
  }

  /**
   * Two nodes at the same path cannot be merged: a measurement meets a
   * different measurement or a non-measurement, or a storage group of one
   * input lies above a storage group of the other.
   */
  predicate Conflicting(a: MNode, b: MNode) {
    || JoinKind(a.kind, b.kind).None?
    || (a.kind.StorageGroup? && AnyStorageGroup(b.children))
    || (b.kind.StorageGroup? && AnyStorageGroup(a.children))
  }

  /** Merges `b` into `a`, both at path `p`: `a`'s children first, then those only `b` has. */
  function Merge(a: MNode, b: MNode, p: Path): (r: Result<MNode, MetadataError>)
    ensures r.Success? ==> r.value.name == a.name
    ensures r.Success? ==>
      && |r.value.children| >= |a.children|
      && forall i :: 0 <= i < |a.children| ==> r.value.children[i].name == a.children[i].name
    decreases a, 1
  {
    if a.name != b.name || Conflicting(a, b) then Failure(MergeConflict(p))
    else match MergeEach(a.children, b.children, p)
      case Failure(e) => Failure(e)
      case Success(ms) =>
        Success(MNode(a.name, JoinKind(a.kind, b.kind).value, ms + Missing(b.children, a.children)))
  }

  /** Each of `xs`, merged with its namesake in `ys` when there is one. */
  function MergeEach(xs: seq<MNode>, ys: seq<MNode>, p: Path): (r: Result<seq<MNode>, MetadataError>)
    ensures r.Success? ==> |r.value| == |xs| && forall i :: 0 <= i < |xs| ==> r.value[i].name == xs[i].name
    decreases xs, 0
  {
    if xs == [] then Success([])
    else
      var first :- match Child(ys, xs[0].name)
        case None => Success(xs[0])
        case Some(b) => Merge(xs[0], b, p + [xs[0].name]);
      var rest :- MergeEach(xs[1..], ys, p);
      Success([first] + rest)
  }

  /** The nodes of `ys`, in order, that have no namesake in `xs`. */
  function Missing(ys: seq<MNode>, xs: seq<MNode>): (r: seq<MNode>)
    ensures forall c :: c in r ==> c in ys && Child(xs, c.name).None?
  {
    if ys == [] then []
    else (if Child(xs, ys[0].name).None? then [ys[0]] else []) + Missing(ys[1..], xs)
  }

  /**
   * combineMetadataInStrings: the first tree merged with each of the others
   * in turn. The inputs are never empty (the first one is always read).
   */
  function Combine(trees: seq<MNode>): Result<MNode, MetadataError>
    requires |trees| >= 1
  {
    CombineInto(trees[0], trees[1..])
  }

  /** `acc` merged with each of `rest` in turn. */
  function CombineInto(acc: MNode, rest: seq<MNode>): Result<MNode, MetadataError>
    decreases |rest|
  {
    if rest == [] then Success(acc)
    else
      var m :- Merge(acc, rest[0], [acc.name]);
      CombineInto(m, rest[1..])
  }

  // ---------------------------------------------------------------------------
  // Child lookup in merged child lists.

  lemma ChildConcat(xs: seq<MNode>, ys: seq<MNode>, x: string)
    ensures Child(xs + ys, x) == if Child(xs, x).Some? then Child(xs, x) else Child(ys, x)
  {
    match ChildIndex(xs, x)
    case Some(i) =>
      ChildIndexIsFirst(xs + ys, x, i);
    case None =>
      match ChildIndex(ys, x)
      case Some(j) =>
        ChildIndexIsFirst(xs + ys, x, |xs| + j);
      case None =>
        assert forall k :: 0 <= k < |xs + ys| ==> (xs + ys)[k].name != x;
  }

  /** Lists with the same names in the same order find a name at the same position. */
  lemma SameNamesSameIndex(xs: seq<MNode>, zs: seq<MNode>, x: string)
    requires |xs| == |zs| && forall i :: 0 <= i < |xs| ==> xs[i].name == zs[i].name
    ensures ChildIndex(xs, x) == ChildIndex(zs, x)
  {
    match ChildIndex(xs, x)
    case Some(i) =>
      ChildIndexIsFirst(zs, x, i);
    case None =>
  }

  lemma {:induction false} MissingChild(ys: seq<MNode>, xs: seq<MNode>, x: string)
    ensures Child(Missing(ys, xs), x) == if Child(xs, x).Some? then None else Child(ys, x)
    decreases ys
  {
    if ys != [] {
      MissingChild(ys[1..], xs, x);
      var head := if Child(xs, ys[0].name).None? then [ys[0]] else [];
      ChildConcat(head, Missing(ys[1..], xs), x);
      ChildConcat([ys[0]], ys[1..], x);
      assert [ys[0]] + ys[1..] == ys;
      if head == [] {
        assert Child(head, x).None?;
      }
    }
  }

  lemma {:induction false} MissingUnique(ys: seq<MNode>, xs: seq<MNode>)
    requires UniqueNames(ys)
    ensures UniqueNames(Missing(ys, xs))
    decreases ys
  {
    if ys != [] {
      MissingUnique(ys[1..], xs);
      var rest := Missing(ys[1..], xs);
      var head := if Child(xs, ys[0].name).None? then [ys[0]] else [];
      forall c | c in rest ensures c.name != ys[0].name {
        var j :| 0 <= j < |ys[1..]| && ys[1..][j] == c;
        assert ys[j + 1] == c;
      }
      assert forall i :: 0 <= i < |rest| ==> rest[i] in rest;
    }
  }

  lemma UniqueConcat(us: seq<MNode>, vs: seq<MNode>)
    requires UniqueNames(us) && UniqueNames(vs)
    requires forall i, j :: 0 <= i < |us| && 0 <= j < |vs| ==> us[i].name != vs[j].name
    ensures UniqueNames(us + vs)
  {
  }

  // ---------------------------------------------------------------------------
  // MergeEach, element by element.

  lemma {:induction false} MergeEachAt(xs: seq<MNode>, ys: seq<MNode>, p: Path, i: nat)
    requires MergeEach(xs, ys, p).Success? && i < |xs|
    ensures match Child(ys, xs[i].name)
      case None => MergeEach(xs, ys, p).value[i] == xs[i]
      case Some(b) => Merge(xs[i], b, p + [xs[i].name]) == Success(MergeEach(xs, ys, p).value[i])
    decreases i
  {
    if i > 0 {
      MergeEachAt(xs[1..], ys, p, i - 1);
    }
  }

  lemma {:induction false} MergeEachFailsAt(xs: seq<MNode>, ys: seq<MNode>, p: Path, i: nat)
    requires i < |xs| && Child(ys, xs[i].name).Some?
    requires Merge(xs[i], Child(ys, xs[i].name).value, p + [xs[i].name]).Failure?
    ensures MergeEach(xs, ys, p).Failure?
    decreases i
  {
    if i > 0 {
      MergeEachFailsAt(xs[1..], ys, p, i - 1);
    }
  }

  /** A failed MergeEach reports the failure of its merge at index `i`. */
  lemma {:induction false} MergeEachFailure(xs: seq<MNode>, ys: seq<MNode>, p: Path) returns (i: nat)
    requires MergeEach(xs, ys, p).Failure?
    ensures i < |xs| && Child(ys, xs[i].name).Some?
    ensures Merge(xs[i], Child(ys, xs[i].name).value, p + [xs[i].name]) == Failure(MergeEach(xs, ys, p).error)
    decreases xs
  {
    if Child(ys, xs[0].name).Some? && Merge(xs[0], Child(ys, xs[0].name).value, p + [xs[0].name]).Failure? {
      i := 0;
    } else {
      var j := MergeEachFailure(xs[1..], ys, p);
      assert xs[1..][j] == xs[j + 1];
      i := j + 1;
    }
  }

  /** The child called `x` of a merged node: the merge of both inputs' children, or the one that exists. */
  lemma MergedChild(a: MNode, b: MNode, p: Path, x: string)
    requires Merge(a, b, p).Success?
    ensures var m := Merge(a, b, p).value;
      match (Child(a.children, x), Child(b.children, x))
      case (Some(ca), Some(cb)) =>
        Child(m.children, x).Some? && Merge(ca, cb, p + [x]) == Success(Child(m.children, x).value)
      case (Some(ca), None) => Child(m.children, x) == Some(ca)
      case (None, _) => Child(m.children, x) == Child(b.children, x)
  {
    var ms := MergeEach(a.children, b.children, p).value;
    ChildConcat(ms, Missing(b.children, a.children), x);
    SameNamesSameIndex(ms, a.children, x);
    MissingChild(b.children, a.children, x);
    match ChildIndex(a.children, x)
    case None =>
    case Some(i) =>
      MergeEachAt(a.children, b.children, p, i);
  }

  // ---------------------------------------------------------------------------
  // What a successful merge holds.

  /**
   * The union holds a node wherever either input does, of the joined kind:
   * a storage group of either input stays one, a measurement keeps its schema.
   */
  lemma {:induction false} MergeKinds(a: MNode, b: MNode, p: Path, rel: Path)
    requires Merge(a, b, p).Success?
    ensures KindAt(Merge(a, b, p).value, rel) == JoinAt(KindAt(a, rel), KindAt(b, rel))
    ensures KindAt(Merge(a, b, p).value, rel).Some? <==> KindAt(a, rel).Some? || KindAt(b, rel).Some?
    decreases rel
  {
    var m := Merge(a, b, p).value;
    if rel != [] {
      var x := rel[0];
      KindAtStep(m, rel);
      KindAtStep(a, rel);
      KindAtStep(b, rel);
      MergedChild(a, b, p, x);
      match (Child(a.children, x), Child(b.children, x))
      case (Some(ca), Some(cb)) =>
        MergeKinds(ca, cb, p + [x], rel[1..]);
      case (Some(ca), None) =>
      case (None, _) =>
    }
  }

  /**
   * Merging well-formed trees gives a well-formed tree, and no storage
   * group appears that neither input has.
   */
  lemma {:induction false} MergeWellFormed(a: MNode, b: MNode, p: Path)
    requires WellFormed(a) && WellFormed(b) && Merge(a, b, p).Success?
    ensures WellFormed(Merge(a, b, p).value)
    ensures HasStorageGroup(Merge(a, b, p).value) ==> HasStorageGroup(a) || HasStorageGroup(b)
    decreases a
  {
    var m := Merge(a, b, p).value;
    var xs, ys := a.children, b.children;
    var ms := MergeEach(xs, ys, p).value;
    var miss := Missing(ys, xs);
    assert m.children == ms + miss;
    forall i | 0 <= i < |xs|
      ensures WellFormed(ms[i])
      ensures HasStorageGroup(ms[i]) ==> AnyStorageGroup(xs) || AnyStorageGroup(ys)
    {
      MergeEachAt(xs, ys, p, i);
      match Child(ys, xs[i].name)
      case None =>
        if HasStorageGroup(xs[i]) {
          AnyStorageGroupAt(xs, i);
        }
      case Some(cb) =>
        ChildIsElement(ys, xs[i].name);
        var j :| 0 <= j < |ys| && ys[j] == cb && ys[j].name == xs[i].name;
        MergeWellFormed(xs[i], cb, p + [xs[i].name]);
        if HasStorageGroup(xs[i]) {
          AnyStorageGroupAt(xs, i);
        }
        if HasStorageGroup(cb) {
          AnyStorageGroupAt(ys, j);
        }
    }
    forall c | c in miss ensures WellFormed(c) && (HasStorageGroup(c) ==> AnyStorageGroup(ys)) {
      var j :| 0 <= j < |ys| && ys[j] == c;
      if HasStorageGroup(c) {
        AnyStorageGroupAt(ys, j);
      }
    }
    MissingUnique(ys, xs);
    forall i, j | 0 <= i < |ms| && 0 <= j < |miss| ensures ms[i].name != miss[j].name {
      assert miss[j] in miss;
    }
    UniqueConcat(ms, miss);
    if AnyStorageGroup(m.children) {
      AnyStorageGroupIff(m.children);
      var k :| 0 <= k < |m.children| && HasStorageGroup(m.children[k]);
      if k >= |ms| {
        assert m.children[k] in miss;
      }
    }
  }

  /** `a` and `b` both have a node at `rel`, and the two nodes cannot be merged. */
  ghost predicate Clash(a: MNode, b: MNode, rel: Path) {
    Find(a, rel).Some? && Find(b, rel).Some? && Conflicting(Find(a, rel).value, Find(b, rel).value)
  }

  /** A failed merge names the path `rel` of a clash. */
  lemma {:induction false} MergeFailureNamesClash(a: MNode, b: MNode, p: Path) returns (rel: Path)
    requires a.name == b.name && WellFormed(a) && Merge(a, b, p).Failure?
    ensures Merge(a, b, p).error == MergeConflict(p + rel) && Clash(a, b, rel)
    decreases a, 1
  {
    if Conflicting(a, b) {
      rel := [];
      assert p + rel == p;
    } else {
      assert Merge(a, b, p).error == MergeEach(a.children, b.children, p).error;
      rel := ChildrenFailureNamesClash(a, b, p);
    }
  }

  /** A failed merge of the children of `a` and `b` names the path of a clash below them. */
  lemma {:induction false} ChildrenFailureNamesClash(a: MNode, b: MNode, p: Path) returns (rel: Path)
    requires WellFormed(a) && MergeEach(a.children, b.children, p).Failure?
    ensures MergeEach(a.children, b.children, p).error == MergeConflict(p + rel) && Clash(a, b, rel)
    decreases a, 0
  {
    var xs, ys := a.children, b.children;
    var i := MergeEachFailure(xs, ys, p);
    var x := xs[i].name;
    var cb := Child(ys, x).value;
    ChildIsElement(ys, x);
    assert WellFormed(xs[i]);
    var r := MergeFailureNamesClash(xs[i], cb, p + [x]);
    ChildAt(xs, i);
    ClashStep(a, b, x, r);
    rel := [x] + r;
    assert p + [x] + r == p + rel;
  }

  /** A clash below same-named children is a clash of their parents. */
  lemma ClashStep(a: MNode, b: MNode, x: string, rel: Path)
    requires Child(a.children, x).Some? && Child(b.children, x).Some?
    requires Clash(Child(a.children, x).value, Child(b.children, x).value, rel)
    ensures Clash(a, b, [x] + rel)
  {
    assert ([x] + rel)[0] == x && ([x] + rel)[1..] == rel;
  }

  /** A clash anywhere makes the merge fail. */
  lemma {:induction false} ClashFails(a: MNode, b: MNode, p: Path, rel: Path)
    requires a.name == b.name && Clash(a, b, rel)
    ensures Merge(a, b, p).Failure?
    decreases rel
  {
    if rel != [] && !Conflicting(a, b) {
      var x := rel[0];
      var ca, cb := Child(a.children, x).value, Child(b.children, x).value;
      ChildIsElement(a.children, x);
      var i :| 0 <= i < |a.children| && a.children[i] == ca && a.children[i].name == x;
      ChildIsElement(b.children, x);
      ClashFails(ca, cb, p + [x], rel[1..]);
      MergeEachFailsAt(a.children, b.children, p, i);
    }
  }

  /**
   * Two well-formed trees with the same root merge exactly when they do not
   * clash at any path; a failure names a clashing path.
   */
  lemma MergeSucceedsIff(a: MNode, b: MNode, p: Path)
    requires a.name == b.name && WellFormed(a)
    ensures Merge(a, b, p).Success? <==> forall rel :: !Clash(a, b, rel)
  {
    if Merge(a, b, p).Failure? {
      var rel := MergeFailureNamesClash(a, b, p);
    }
    forall rel | Clash(a, b, rel) ensures Merge(a, b, p).Failure? {
      ClashFails(a, b, p, rel);
    }
  }

  lemma JoinCommutes(x: Option<Kind>, y: Option<Kind>)
    ensures JoinAt(x, y) == JoinAt(y, x)
  {
  }

  /**
   * Merging is commutative up to the order of children: either order
   * succeeds or fails alike, and the two results hold the same kind at
   * every path.
   */
  lemma MergeCommutes(a: MNode, b: MNode, p: Path, rel: Path)
    requires a.name == b.name && WellFormed(a) && WellFormed(b)
    ensures Merge(a, b, p).Success? <==> Merge(b, a, p).Success?
    ensures Merge(a, b, p).Success? ==> KindAt(Merge(a, b, p).value, rel) == KindAt(Merge(b, a, p).value, rel)
  {
    MergeSucceedsIff(a, b, p);
    MergeSucceedsIff(b, a, p);
    assert forall q :: Clash(a, b, q) <==> Clash(b, a, q);
    if Merge(a, b, p).Success? {
      MergeKinds(a, b, p, rel);
      MergeKinds(b, a, p, rel);
      JoinCommutes(KindAt(a, rel), KindAt(b, rel));
    }
  }

  /** Each node of `xs` is the one its name finds in `ys`, so merging them changes nothing. */
  lemma {:induction false} MergeEachSelf(xs: seq<MNode>, ys: seq<MNode>, p: Path)
    requires forall i :: 0 <= i < |xs| ==> Child(ys, xs[i].name) == Some(xs[i]) && WellFormed(xs[i])
    ensures MergeEach(xs, ys, p) == Success(xs)
    decreases xs, 0
  {
    if xs != [] {
      MergeSelf(xs[0], p + [xs[0].name]);
      assert forall i :: 0 <= i < |xs[1..]| ==> xs[1..][i] == xs[i + 1];
      MergeEachSelf(xs[1..], ys, p);
      assert [xs[0]] + xs[1..] == xs;
    }
  }

  /** Merging a well-formed tree with itself gives the same tree back. */
  lemma {:induction false} MergeSelf(a: MNode, p: Path)
    requires WellFormed(a)
    ensures Merge(a, a, p) == Success(a)
    decreases a, 1
  {
    var xs := a.children;
    forall i | 0 <= i < |xs| ensures Child(xs, xs[i].name) == Some(xs[i]) {
      ChildAt(xs, i);
    }
    MergeEachSelf(xs, xs, p);
    assert Missing(xs, xs) == [] by {
      if Missing(xs, xs) != [] {
        assert Missing(xs, xs)[0] in Missing(xs, xs);
      }
    }
    assert xs + [] == xs;
  }

  /** A successful combine holds a node exactly where some input does. */
  lemma {:induction false} CombineIntoHolds(acc: MNode, rest: seq<MNode>, rel: Path)
    requires CombineInto(acc, rest).Success?
    ensures KindAt(CombineInto(acc, rest).value, rel).Some? <==>
      KindAt(acc, rel).Some? || exists i :: 0 <= i < |rest| && KindAt(rest[i], rel).Some?
    decreases |rest|
  {
    if rest != [] {
      var m := Merge(acc, rest[0], [acc.name]).value;
      MergeKinds(acc, rest[0], [acc.name], rel);
      CombineIntoHolds(m, rest[1..], rel);
      if exists i :: 0 <= i < |rest[1..]| && KindAt(rest[1..][i], rel).Some? {
        var i :| 0 <= i < |rest[1..]| && KindAt(rest[1..][i], rel).Some?;
        assert rest[1..][i] == rest[i + 1];
      }
      if exists i :: 0 <= i < |rest| && KindAt(rest[i], rel).Some? {
        var i :| 0 <= i < |rest| && KindAt(rest[i], rel).Some?;
        if i > 0 {
          assert rest[1..][i - 1] == rest[i];
        }
      }
    }
  }

  /** Where the union has a node, a kind other than a plain level comes from one of the inputs. */
  lemma JoinAtKeeps(x: Option<Kind>, y: Option<Kind>, k: Kind)
    requires JoinAt(x, y).Some? <==> x.Some? || y.Some?
    requires !k.Internal?
    ensures JoinAt(x, y) == Some(k) <==> x == Some(k) || y == Some(k)
  {
  }

  /** A successful combine has a storage group, or a measurement with a given schema, exactly where some input has one. */
  lemma {:induction false} CombineIntoKinds(acc: MNode, rest: seq<MNode>, rel: Path, k: Kind)
    requires CombineInto(acc, rest).Success? && !k.Internal?
    ensures KindAt(CombineInto(acc, rest).value, rel) == Some(k) <==>
      KindAt(acc, rel) == Some(k) || exists i :: 0 <= i < |rest| && KindAt(rest[i], rel) == Some(k)
    decreases |rest|
  {
    if rest != [] {
      var m := Merge(acc, rest[0], [acc.name]).value;
      MergeKinds(acc, rest[0], [acc.name], rel);
      JoinAtKeeps(KindAt(acc, rel), KindAt(rest[0], rel), k);
      CombineIntoKinds(m, rest[1..], rel, k);
      if exists i :: 0 <= i < |rest[1..]| && KindAt(rest[1..][i], rel) == Some(k) {
        var i :| 0 <= i < |rest[1..]| && KindAt(rest[1..][i], rel) == Some(k);
        assert rest[1..][i] == rest[i + 1];
      }
      if exists i :: 0 <= i < |rest| && KindAt(rest[i], rel) == Some(k) {
        var i :| 0 <= i < |rest| && KindAt(rest[i], rel) == Some(k);
        if i > 0 {
          assert rest[1..][i - 1] == rest[i];
        }
      }
    }
  }

  lemma {:induction false} CombineIntoWellFormed(acc: MNode, rest: seq<MNode>)
    requires CombineInto(acc, rest).Success? && ValidTree(acc)
    requires forall i :: 0 <= i < |rest| ==> ValidTree(rest[i])
    ensures ValidTree(CombineInto(acc, rest).value) && CombineInto(acc, rest).value.name == acc.name
    decreases |rest|
  {
    if rest != [] {
      MergeWellFormed(acc, rest[0], [acc.name]);
      var m := Merge(acc, rest[0], [acc.name]).value;
      assert forall i :: 0 <= i < |rest[1..]| ==> rest[1..][i] == rest[i + 1];
      CombineIntoWellFormed(m, rest[1..]);
    }
  }

  /**
   * combineMetadataInStrings of well-formed trees gives a well-formed tree
   * with the first tree's root. It holds a node exactly where some input
   * does, and a storage group, or a measurement with a given schema,
   * exactly where some input has one.
   */
  lemma CombineSpec(trees: seq<MNode>, rel: Path, k: Kind)
    requires |trees| >= 1 && Combine(trees).Success?
    requires forall i :: 0 <= i < |trees| ==> ValidTree(trees[i])
    requires !k.Internal?
    ensures ValidTree(Combine(trees).value) && Combine(trees).value.name == trees[0].name
    ensures KindAt(Combine(trees).value, rel).Some? <==> exists i :: 0 <= i < |trees| && KindAt(trees[i], rel).Some?
    ensures KindAt(Combine(trees).value, rel) == Some(k) <==> exists i :: 0 <= i < |trees| && KindAt(trees[i], rel) == Some(k)
  {
    var rest := trees[1..];
    assert forall i :: 0 <= i < |rest| ==> rest[i] == trees[i + 1];
    CombineIntoWellFormed(trees[0], rest);
    CombineIntoHolds(trees[0], rest, rel);
    CombineIntoKinds(trees[0], rest, rel, k);
    if exists i :: 0 <= i < |trees| && KindAt(trees[i], rel).Some? {
      var i :| 0 <= i < |trees| && KindAt(trees[i], rel).Some?;
      if i > 0 {
        assert KindAt(rest[i - 1], rel).Some?;
      }
    }
    if exists i :: 0 <= i < |trees| && KindAt(trees[i], rel) == Some(k) {
      var i :| 0 <= i < |trees| && KindAt(trees[i], rel) == Some(k);
      if i > 0 {
        assert KindAt(rest[i - 1], rel) == Some(k);
      }
    }
  }

  // ---------------------------------------------------------------------------
  // When combining succeeds.

  /** A well-formed subtree holding a storage group has one at some path. */
  lemma {:induction false} GroupWitness(n: MNode) returns (q: Path)
    requires WellFormed(n) && HasStorageGroup(n)
    ensures KindAt(n, q) == Some(StorageGroup)
    decreases n
  {
    if n.kind.StorageGroup? {
      q := [];
    } else {
      AnyStorageGroupIff(n.children);
      var i :| 0 <= i < |n.children| && HasStorageGroup(n.children[i]);
      var c := n.children[i];
      var q' := GroupWitness(c);
      ChildAt(n.children, i);
      q := [c.name] + q';
      assert q[0] == c.name && q[1..] == q';
      KindAtStep(n, q);
    }
  }

  /** Some child list holds a storage group exactly when some path below the node leads to one. */
  lemma ChildrenGroupIff(n: MNode)
    requires WellFormed(n)
    ensures AnyStorageGroup(n.children) <==> exists q :: q != [] && KindAt(n, q) == Some(StorageGroup)
  {
    if AnyStorageGroup(n.children) {
      AnyStorageGroupIff(n.children);
      var i :| 0 <= i < |n.children| && HasStorageGroup(n.children[i]);
      var c := n.children[i];
      var q' := GroupWitness(c);
      ChildAt(n.children, i);
      var q := [c.name] + q';
      assert q[0] == c.name && q[1..] == q';
      KindAtStep(n, q);
    }
    if exists q :: q != [] && KindAt(n, q) == Some(StorageGroup) {
      var q :| q != [] && KindAt(n, q) == Some(StorageGroup);
      KindAtStep(n, q);
      var c := Child(n.children, q[0]).value;
      assert HasStorageGroup(c) by {
        if !HasStorageGroup(c) {
          NoStorageGroupBelow(c, q[1..]);
        }
      }
      ChildIsElement(n.children, q[0]);
      var i :| 0 <= i < |n.children| && n.children[i] == c && n.children[i].name == q[0];
      AnyStorageGroupAt(n.children, i);
    }
  }

  /** A storage group lies strictly below the path `rel` of `n`. */
  ghost predicate GroupBelow(n: MNode, rel: Path) {
    exists q :: q != [] && KindAt(n, rel + q) == Some(StorageGroup)
  }

  /** A clash in terms of the kinds the two trees hold at and below `rel`. */
  lemma ClashKinds(a: MNode, b: MNode, rel: Path)
    requires WellFormed(a) && WellFormed(b)
    ensures Clash(a, b, rel) <==>
      && KindAt(a, rel).Some? && KindAt(b, rel).Some?
      && (|| JoinKind(KindAt(a, rel).value, KindAt(b, rel).value).None?
          || (KindAt(a, rel) == Some(StorageGroup) && GroupBelow(b, rel))
          || (KindAt(b, rel) == Some(StorageGroup) && GroupBelow(a, rel)))
  {
    if Find(a, rel).Some? && Find(b, rel).Some? {
      var na, nb := Find(a, rel).value, Find(b, rel).value;
      FindWellFormed(a, rel);
      FindWellFormed(b, rel);
      ChildrenGroupIff(na);
      ChildrenGroupIff(nb);
      forall q
        ensures KindAt(a, rel + q) == KindAt(na, q) && KindAt(b, rel + q) == KindAt(nb, q)
      {
        FindConcat(a, rel, q);
        FindConcat(b, rel, q);
      }
    }
  }

  /** The union holds a storage group below `rel` exactly when one of the inputs does. */
  lemma MergeGroupBelow(a: MNode, b: MNode, p: Path, rel: Path)
    requires Merge(a, b, p).Success?
    ensures GroupBelow(Merge(a, b, p).value, rel) <==> GroupBelow(a, rel) || GroupBelow(b, rel)
  {
    var m := Merge(a, b, p).value;
    forall q
      ensures KindAt(m, rel + q) == Some(StorageGroup) <==>
        KindAt(a, rel + q) == Some(StorageGroup) || KindAt(b, rel + q) == Some(StorageGroup)
    {
      MergeKinds(a, b, p, rel + q);
      JoinAtKeeps(KindAt(a, rel + q), KindAt(b, rel + q), StorageGroup);
    }
  }

  /** A storage group below `rel` implies a node at `rel`. */
  lemma GroupBelowHasNode(n: MNode, rel: Path)
    requires GroupBelow(n, rel)
    ensures KindAt(n, rel).Some?
  {
    var q :| q != [] && KindAt(n, rel + q) == Some(StorageGroup);
    assert IsPrefix(rel, rel + q);
    AncestorExists(n, rel, rel + q);
  }

  /**
   * The union of `a` and `b` clashes with a third tree at `rel` exactly when
   * `a` or `b` does.
   */
  lemma MergeClashes(a: MNode, b: MNode, c: MNode, p: Path, rel: Path)
    requires WellFormed(a) && WellFormed(b) && WellFormed(c) && Merge(a, b, p).Success?
    ensures Clash(Merge(a, b, p).value, c, rel) <==> Clash(a, c, rel) || Clash(b, c, rel)
  {
    var m := Merge(a, b, p).value;
    var ka, kb, km := KindAt(a, rel), KindAt(b, rel), KindAt(m, rel);
    MergeWellFormed(a, b, p);
    ClashKinds(m, c, rel);
    ClashKinds(a, c, rel);
    ClashKinds(b, c, rel);
    MergeKinds(a, b, p, rel);
    MergeGroupBelow(a, b, p, rel);
    JoinAtKeeps(ka, kb, StorageGroup);
    if km.Some? && km.value.Measurement? {
      JoinAtKeeps(ka, kb, km.value);
    }
    if ka.Some? && ka.value.Measurement? {
      JoinAtKeeps(ka, kb, ka.value);
    }
    if kb.Some? && kb.value.Measurement? {
      JoinAtKeeps(ka, kb, kb.value);
    }
    if GroupBelow(a, rel) {
      GroupBelowHasNode(a, rel);
    }
    if GroupBelow(b, rel) {
      GroupBelowHasNode(b, rel);
    }
  }

  /** `acc` clashes with none of `rest`. */
  ghost predicate ClashesWithNone(acc: MNode, rest: seq<MNode>) {
    forall j, rel :: 0 <= j < |rest| ==> !Clash(acc, rest[j], rel)
  }

  /** No two of `trees` clash. */
  ghost predicate PairwiseApart(trees: seq<MNode>) {
    forall i, j, rel :: 0 <= i < j < |trees| ==> !Clash(trees[i], trees[j], rel)
  }

  lemma ApartAfterMerge(acc: MNode, m: MNode, rest: seq<MNode>)
    requires rest != [] && ClashesWithNone(acc, rest) && PairwiseApart(rest)
    requires forall j, rel :: 0 <= j < |rest[1..]| ==>
      (Clash(m, rest[1..][j], rel) <==> Clash(acc, rest[1..][j], rel) || Clash(rest[0], rest[1..][j], rel))
    ensures ClashesWithNone(m, rest[1..]) && PairwiseApart(rest[1..])
  {
    var rest' := rest[1..];
    forall i, j, rel | 0 <= i < j < |rest'|
      ensures !Clash(rest'[i], rest'[j], rel)
    {
      assert rest'[i] == rest[i + 1] && rest'[j] == rest[j + 1];
    }
    forall j, rel | 0 <= j < |rest'|
      ensures !Clash(m, rest'[j], rel)
    {
      assert rest'[j] == rest[j + 1];
      assert !Clash(acc, rest[j + 1], rel) && !Clash(rest[0], rest[j + 1], rel);
      assert !Clash(acc, rest'[j], rel) && !Clash(rest[0], rest'[j], rel);
    }
  }

  lemma ApartBeforeMerge(acc: MNode, m: MNode, rest: seq<MNode>)
    requires rest != [] && (forall rel :: !Clash(acc, rest[0], rel))
    requires ClashesWithNone(m, rest[1..]) && PairwiseApart(rest[1..])
    requires forall j, rel :: 0 <= j < |rest[1..]| ==>
      (Clash(m, rest[1..][j], rel) <==> Clash(acc, rest[1..][j], rel) || Clash(rest[0], rest[1..][j], rel))
    ensures ClashesWithNone(acc, rest) && PairwiseApart(rest)
  {
    var rest' := rest[1..];
    forall j, rel | 0 <= j < |rest|
      ensures !Clash(acc, rest[j], rel)
    {
      if j > 0 {
        assert rest'[j - 1] == rest[j];
        assert !Clash(m, rest'[j - 1], rel);
      }
    }
    forall i, j, rel | 0 <= i < j < |rest|
      ensures !Clash(rest[i], rest[j], rel)
    {
      assert rest'[j - 1] == rest[j];
      if i == 0 {
        assert !Clash(m, rest'[j - 1], rel);
      } else {
        assert rest'[i - 1] == rest[i];
      }
    }
  }

  /**
   * Combining into `acc` succeeds exactly when `acc` clashes with none of
   * `rest` and no two of `rest` clash.
   */
  lemma {:induction false} CombineIntoSucceedsIff(acc: MNode, rest: seq<MNode>)
    requires WellFormed(acc)
    requires forall i :: 0 <= i < |rest| ==> WellFormed(rest[i]) && rest[i].name == acc.name
    ensures CombineInto(acc, rest).Success? <==> ClashesWithNone(acc, rest) && PairwiseApart(rest)
    decreases |rest|
  {
    if rest != [] {
      var b := rest[0];
      MergeSucceedsIff(acc, b, [acc.name]);
      if Merge(acc, b, [acc.name]).Success? {
        var m := Merge(acc, b, [acc.name]).value;
        var rest' := rest[1..];
        MergeWellFormed(acc, b, [acc.name]);
        assert forall j :: 0 <= j < |rest'| ==> rest'[j] == rest[j + 1];
        CombineIntoSucceedsIff(m, rest');
        forall j, rel | 0 <= j < |rest'|
          ensures Clash(m, rest'[j], rel) <==> Clash(acc, rest'[j], rel) || Clash(b, rest'[j], rel)
        {
          MergeClashes(acc, b, rest'[j], [acc.name], rel);
        }
        if ClashesWithNone(acc, rest) && PairwiseApart(rest) {
          ApartAfterMerge(acc, m, rest);
        }
        if CombineInto(m, rest').Success? {
          ApartBeforeMerge(acc, m, rest);
        }
      } else {
        assert !ClashesWithNone(acc, rest);
      }
    }
  }

  /**
   * combineMetadataInStrings of well-formed trees under one root name
   * succeeds exactly when no two of them clash at any path.
   */
  lemma CombineSucceedsIff(trees: seq<MNode>)
    requires |trees| >= 1
    requires forall i :: 0 <= i < |trees| ==> ValidTree(trees[i]) && trees[i].name == trees[0].name
    ensures Combine(trees).Success? <==>
      forall i, j, rel :: 0 <= i < j < |trees| ==> !Clash(trees[i], trees[j], rel)
  {
    var rest := trees[1..];
    assert forall j :: 0 <= j < |rest| ==> rest[j] == trees[j + 1];
    CombineIntoSucceedsIff(trees[0], rest);
    if Combine(trees).Success? {
      forall i, j, rel | 0 <= i < j < |trees|
        ensures !Clash(trees[i], trees[j], rel)
      {
        assert trees[j] == rest[j - 1];
        if i > 0 {
          assert trees[i] == rest[i - 1];
        }
      }
    }
    if PairwiseApart(trees) {
      forall j, rel | 0 <= j < |rest|
        ensures !Clash(trees[0], rest[j], rel)
      {
        assert rest[j] == trees[j + 1];
      }
      forall i, j, rel | 0 <= i < j < |rest|
        ensures !Clash(rest[i], rest[j], rel)
      {
        assert rest[i] == trees[i + 1] && rest[j] == trees[j + 1];
      }
    }
  }
}
