/**
 * The three mutations of the metadata tree (addPath, setStorageGroup and
 * deletePath) as functions from the old tree to the new one or to the error
 * the operation throws.
 */
module MTreeUpdate {
  import opened Wrappers
  import opened Paths
  import opened MNodes

  /** A chain of new nodes named by `rest`: plain levels ending in a node of kind `last`. */
  function Spine(rest: Path, last: Kind): (m: MNode)
    requires |rest| >= 1
    ensures m.name == rest[0]
    decreases rest
  {
    if |rest| == 1 then MNode(rest[0], last, []) else MNode(rest[0], Internal, [Spine(rest[1..], last)])
  }

  lemma {:induction false} SpineKinds(rest: Path, last: Kind, rel: Path)
    requires |rest| >= 1
    ensures KindAt(Spine(rest, last), rel) ==
      if rel == rest[1..] then Some(last)
      else if IsPrefix(rel, rest[1..]) then Some(Internal)
      else None
    decreases rest
  {
    if rel != [] && |rest| > 1 {
      var sp := Spine(rest, last);
      assert ChildIndex(sp.children, rest[1]) == Some(0);
      if rel[0] == rest[1] {
        SpineKinds(rest[1..], last, rel[1..]);
        PrefixStep(rel, rest[1..]);
      }
    }
  }

  lemma {:induction false} SpineWellFormed(rest: Path, last: Kind)
    requires |rest| >= 1
    ensures WellFormed(Spine(rest, last))
    ensures HasStorageGroup(Spine(rest, last)) <==> last.StorageGroup?
    decreases rest
  {
    var sp := Spine(rest, last);
    if |rest| == 1 {
      assert !AnyStorageGroup(sp.children);
    } else {
      var sub := Spine(rest[1..], last);
      SpineWellFormed(rest[1..], last);
      assert sp.children == [sub];
      AnyStorageGroupIff(sp.children);
    }
  }

  // ---------------------------------------------------------------------------
  // addPath

  /**
   * Adds the measurement `rest` below `n`, the node at `prefix`: walks the
   * existing levels, refuses to descend through a measurement, creates the
   * missing levels, and accepts an identical measurement already in place.
   */
  function AddLeaf(n: MNode, prefix: Path, rest: Path, schema: Schema): (r: Result<MNode, MetadataError>)
    requires |rest| >= 1
    ensures r.Success? ==> r.value.name == n.name && r.value.kind == n.kind
    decreases rest
  {
    if n.kind.Measurement? then Failure(PathAlreadyExist(prefix))
    else match ChildIndex(n.children, rest[0])
      case None => Success(n.(children := n.children + [Spine(rest, Measurement(schema))]))
      case Some(k) =>
        if |rest| == 1 then
          if n.children[k] == MNode(rest[0], Measurement(schema), []) then Success(n)
          else Failure(PathAlreadyExist(prefix + rest))
        else
          var c :- AddLeaf(n.children[k], prefix + [rest[0]], rest[1..], schema);
          Success(n.(children := n.children[k := c]))
  }

  /** addPath on the tree rooted at `root`. */
  function AddPath(root: MNode, path: Path, schema: Schema): Result<MNode, MetadataError> {
    if |path| <= 1 || path[0] != root.name then Failure(PathNotLegal(path))
    else AddLeaf(root, [path[0]], path[1..], schema)
  }

  /** `r`, a prefix of `rest`, stops the measurement `rest` from being added. */
  ghost predicate BlocksLeaf(n: MNode, r: Path, rest: Path, schema: Schema) {
    || (IsStrictPrefix(r, rest) && KindAt(n, r).Some? && KindAt(n, r).value.Measurement?)
    || (r == rest && KindAt(n, r).Some? && KindAt(n, r) != Some(Measurement(schema)))
  }

  lemma {:induction false} AddLeafKinds(n: MNode, prefix: Path, rest: Path, schema: Schema, rel: Path)
    requires WellFormed(n) && |rest| >= 1 && AddLeaf(n, prefix, rest, schema).Success?
    ensures KindAt(AddLeaf(n, prefix, rest, schema).value, rel) ==
      if rel == rest then Some(Measurement(schema))
      else if IsPrefix(rel, rest) && KindAt(n, rel).None? then Some(Internal)
      else KindAt(n, rel)
    decreases rest
  {
    var n' := AddLeaf(n, prefix, rest, schema).value;
    if rel != [] {
      var x := rel[0];
      KindAtStep(n, rel);
      KindAtStep(n', rel);
      if x == rest[0] {
        PrefixStep(rel, rest);
      }
      match ChildIndex(n.children, rest[0])
      case None =>
        var sp := Spine(rest, Measurement(schema));
        ChildAfterAppend(n.children, sp, x);
        if x == rest[0] {
          SpineKinds(rest, Measurement(schema), rel[1..]);
        }
      case Some(k) =>
        if |rest| > 1 {
          var c := n.children[k];
          var c' := AddLeaf(c, prefix + [rest[0]], rest[1..], schema).value;
          ChildAfterReplace(n.children, k, c', x);
          if x == rest[0] {
            ChildAt(n.children, k);
            AddLeafKinds(c, prefix + [rest[0]], rest[1..], schema, rel[1..]);
          }
        } else if x == rest[0] {
          ChildAt(n.children, k);
        }
    }
  }

  lemma BlocksLeafStep(n: MNode, rest: Path, schema: Schema, r: Path)
    requires |rest| > 1 && !n.kind.Measurement? && Child(n.children, rest[0]).Some?
    ensures BlocksLeaf(n, r, rest, schema) <==>
      r != [] && r[0] == rest[0] && BlocksLeaf(Child(n.children, rest[0]).value, r[1..], rest[1..], schema)
  {
    if r != [] {
      KindAtStep(n, r);
      if r[0] == rest[0] {
        PrefixStep(r, rest);
      }
    }
  }

  /** addPath below `n` succeeds exactly when no prefix of the path blocks it. */
  lemma {:induction false} AddLeafSucceeds(n: MNode, prefix: Path, rest: Path, schema: Schema)
    requires WellFormed(n) && |rest| >= 1
    ensures AddLeaf(n, prefix, rest, schema).Success? <==> forall r :: !BlocksLeaf(n, r, rest, schema)
    decreases rest
  {
    var res := AddLeaf(n, prefix, rest, schema);
    if n.kind.Measurement? {
      assert BlocksLeaf(n, [], rest, schema);
    } else if ChildIndex(n.children, rest[0]).None? {
      forall r | BlocksLeaf(n, r, rest, schema) ensures false {
        KindAtStep(n, r);
      }
    } else if |rest| == 1 {
      var k := ChildIndex(n.children, rest[0]).value;
      ChildAt(n.children, k);
      KindAtStep(n, rest);
      if res.Failure? {
        assert BlocksLeaf(n, rest, rest, schema);
      } else {
        forall r | BlocksLeaf(n, r, rest, schema) ensures false {
          KindAtStep(n, rest);
        }
      }
    } else {
      var c := Child(n.children, rest[0]).value;
      AddLeafSucceeds(c, prefix + [rest[0]], rest[1..], schema);
      if res.Success? {
        forall r | BlocksLeaf(n, r, rest, schema) ensures false {
          BlocksLeafStep(n, rest, schema, r);
        }
      } else {
        var r' :| BlocksLeaf(c, r', rest[1..], schema);
        var r := [rest[0]] + r';
        assert r[1..] == r';
        BlocksLeafStep(n, rest, schema, r);
      }
    }
  }

  /** A failing addPath names a prefix of the path that blocks it. */
  lemma {:induction false} AddLeafBlocked(n: MNode, prefix: Path, rest: Path, schema: Schema)
    requires WellFormed(n) && |rest| >= 1 && AddLeaf(n, prefix, rest, schema).Failure?
    ensures var e := AddLeaf(n, prefix, rest, schema).error;
      && e.PathAlreadyExist? && |prefix| <= |e.path| && e.path[..|prefix|] == prefix
      && BlocksLeaf(n, e.path[|prefix|..], rest, schema)
    decreases rest
  {
    var e := AddLeaf(n, prefix, rest, schema).error;
    if n.kind.Measurement? {
      assert e.path[|prefix|..] == [];
    } else if |rest| == 1 {
      var k := ChildIndex(n.children, rest[0]).value;
      ChildAt(n.children, k);
      KindAtStep(n, rest);
      assert e.path[|prefix|..] == rest;
    } else {
      var c := Child(n.children, rest[0]).value;
      AddLeafBlocked(c, prefix + [rest[0]], rest[1..], schema);
      var tail := e.path[|prefix| + 1..];
      assert e.path[|prefix|..] == [rest[0]] + tail;
      assert ([rest[0]] + tail)[1..] == tail;
      BlocksLeafStep(n, rest, schema, [rest[0]] + tail);
    }
  }

  /** The children of `n` after `c` replaces, joins or leaves them. */
  lemma ChildrenWellFormed(cs: seq<MNode>, ds: seq<MNode>, c: MNode)
    requires forall i :: 0 <= i < |cs| ==> WellFormed(cs[i])
    requires WellFormed(c)
    requires forall i :: 0 <= i < |ds| ==> ds[i] == c || ds[i] in cs
    ensures forall i :: 0 <= i < |ds| ==> WellFormed(ds[i])
  {
    forall i | 0 <= i < |ds| ensures WellFormed(ds[i]) {
      if ds[i] != c {
        var j :| 0 <= j < |cs| && cs[j] == ds[i];
      }
    }
  }

  lemma {:induction false} AddLeafWellFormed(n: MNode, prefix: Path, rest: Path, schema: Schema)
    requires WellFormed(n) && |rest| >= 1 && AddLeaf(n, prefix, rest, schema).Success?
    ensures WellFormed(AddLeaf(n, prefix, rest, schema).value)
    ensures HasStorageGroup(AddLeaf(n, prefix, rest, schema).value) == HasStorageGroup(n)
    decreases rest
  {
    var n' := AddLeaf(n, prefix, rest, schema).value;
    var cs := n.children;
    AnyStorageGroupIff(cs);
    AnyStorageGroupIff(n'.children);
    match ChildIndex(cs, rest[0])
    case None =>
      var sp := Spine(rest, Measurement(schema));
      SpineWellFormed(rest, Measurement(schema));
      ChildAfterAppend(cs, sp, sp.name);
      ChildrenWellFormed(cs, n'.children, sp);
      assert forall i :: 0 <= i < |cs| ==> n'.children[i] == cs[i];
    case Some(k) =>
      if |rest| > 1 {
        var c' := AddLeaf(cs[k], prefix + [rest[0]], rest[1..], schema).value;
        AddLeafWellFormed(cs[k], prefix + [rest[0]], rest[1..], schema);
        ChildAfterReplace(cs, k, c', c'.name);
        ChildrenWellFormed(cs, n'.children, c');
        assert forall i :: 0 <= i < |cs| && i != k ==> n'.children[i] == cs[i];
      }
  }

  // ---------------------------------------------------------------------------
  // setStorageGroup

  /**
   * Marks `rest` below `n`, the node at `prefix`, as a storage group: walks
   * the existing levels, refuses to pass a storage group or a measurement,
   * creates the missing levels, and refuses a path that already exists.
   */
  function AddGroup(n: MNode, prefix: Path, rest: Path): (r: Result<MNode, MetadataError>)
    requires |rest| >= 1
    ensures r.Success? ==> r.value.name == n.name && r.value.kind == n.kind
    decreases rest
  {
    if !n.kind.Internal? then Failure(PathAlreadyExist(prefix))
    else match ChildIndex(n.children, rest[0])
      case None => Success(n.(children := n.children + [Spine(rest, StorageGroup)]))
      case Some(k) =>
        if |rest| == 1 then Failure(PathAlreadyExist(prefix + rest))
        else
          var c :- AddGroup(n.children[k], prefix + [rest[0]], rest[1..]);
          Success(n.(children := n.children[k := c]))
  }

  /** setStorageGroup on the tree rooted at `root`. */
  function SetStorageGroup(root: MNode, path: Path): Result<MNode, MetadataError> {
    if |path| <= 1 || path[0] != root.name then Failure(PathNotLegal(path))
    else AddGroup(root, [path[0]], path[1..])
  }

  /** `r`, a prefix of `rest`, stops `rest` from becoming a storage group. */
  ghost predicate BlocksGroup(n: MNode, r: Path, rest: Path) {
    || (IsStrictPrefix(r, rest) && KindAt(n, r).Some? && !KindAt(n, r).value.Internal?)
    || (r == rest && KindAt(n, r).Some?)
  }

  lemma BlocksGroupStep(n: MNode, rest: Path, r: Path)
    requires |rest| > 1 && n.kind.Internal? && Child(n.children, rest[0]).Some?
    ensures BlocksGroup(n, r, rest) <==>
      r != [] && r[0] == rest[0] && BlocksGroup(Child(n.children, rest[0]).value, r[1..], rest[1..])
  {
    if r != [] {
      KindAtStep(n, r);
      if r[0] == rest[0] {
        PrefixStep(r, rest);
      }
    }
  }

  /** setStorageGroup below `n` succeeds exactly when no prefix of the path blocks it. */
  lemma {:induction false} AddGroupSucceeds(n: MNode, prefix: Path, rest: Path)
    requires WellFormed(n) && |rest| >= 1
    ensures AddGroup(n, prefix, rest).Success? <==> forall r :: !BlocksGroup(n, r, rest)
    decreases rest
  {
    var res := AddGroup(n, prefix, rest);
    if !n.kind.Internal? {
      assert BlocksGroup(n, [], rest);
    } else if ChildIndex(n.children, rest[0]).None? {
      forall r | BlocksGroup(n, r, rest) ensures false {
        KindAtStep(n, r);
      }
    } else if |rest| == 1 {
      KindAtStep(n, rest);
      assert BlocksGroup(n, rest, rest);
    } else {
      var c := Child(n.children, rest[0]).value;
      AddGroupSucceeds(c, prefix + [rest[0]], rest[1..]);
      if res.Success? {
        forall r | BlocksGroup(n, r, rest) ensures false {
          BlocksGroupStep(n, rest, r);
        }
      } else {
        var r' :| BlocksGroup(c, r', rest[1..]);
        var r := [rest[0]] + r';
        assert r[1..] == r';
        BlocksGroupStep(n, rest, r);
      }
    }
  }

  /** A failing setStorageGroup names a prefix of the path that blocks it. */
  lemma {:induction false} AddGroupBlocked(n: MNode, prefix: Path, rest: Path)
    requires WellFormed(n) && |rest| >= 1 && AddGroup(n, prefix, rest).Failure?
    ensures var e := AddGroup(n, prefix, rest).error;
      && e.PathAlreadyExist? && |prefix| <= |e.path| && e.path[..|prefix|] == prefix
      && BlocksGroup(n, e.path[|prefix|..], rest)
    decreases rest
  {
    var e := AddGroup(n, prefix, rest).error;
    if !n.kind.Internal? {
      assert e.path[|prefix|..] == [];
    } else if |rest| == 1 {
      KindAtStep(n, rest);
      assert e.path[|prefix|..] == rest;
    } else {
      var c := Child(n.children, rest[0]).value;
      AddGroupBlocked(c, prefix + [rest[0]], rest[1..]);
      var tail := e.path[|prefix| + 1..];
      assert e.path[|prefix|..] == [rest[0]] + tail;
      assert ([rest[0]] + tail)[1..] == tail;
      BlocksGroupStep(n, rest, [rest[0]] + tail);
    }
  }

  lemma {:induction false} AddGroupKinds(n: MNode, prefix: Path, rest: Path, rel: Path)
    requires WellFormed(n) && |rest| >= 1 && AddGroup(n, prefix, rest).Success?
    ensures KindAt(AddGroup(n, prefix, rest).value, rel) ==
      if rel == rest then Some(StorageGroup)
      else if IsPrefix(rel, rest) && KindAt(n, rel).None? then Some(Internal)
      else KindAt(n, rel)
    decreases rest
  {
    var n' := AddGroup(n, prefix, rest).value;
    if rel != [] {
      var x := rel[0];
      KindAtStep(n, rel);
      KindAtStep(n', rel);
      if x == rest[0] {
        PrefixStep(rel, rest);
      }
      match ChildIndex(n.children, rest[0])
      case None =>
        var sp := Spine(rest, StorageGroup);
        ChildAfterAppend(n.children, sp, x);
        if x == rest[0] {
          SpineKinds(rest, StorageGroup, rel[1..]);
        }
      case Some(k) =>
        var c := n.children[k];
        var c' := AddGroup(c, prefix + [rest[0]], rest[1..]).value;
        ChildAfterReplace(n.children, k, c', x);
        if x == rest[0] {
          ChildAt(n.children, k);
          AddGroupKinds(c, prefix + [rest[0]], rest[1..], rel[1..]);
        }
    }
  }

  lemma {:induction false} AddGroupWellFormed(n: MNode, prefix: Path, rest: Path)
    requires WellFormed(n) && |rest| >= 1 && AddGroup(n, prefix, rest).Success?
    ensures WellFormed(AddGroup(n, prefix, rest).value)
    decreases rest
  {
    var n' := AddGroup(n, prefix, rest).value;
    var cs := n.children;
    match ChildIndex(cs, rest[0])
    case None =>
      var sp := Spine(rest, StorageGroup);
      SpineWellFormed(rest, StorageGroup);
      ChildAfterAppend(cs, sp, sp.name);
      ChildrenWellFormed(cs, n'.children, sp);
    case Some(k) =>
      var c' := AddGroup(cs[k], prefix + [rest[0]], rest[1..]).value;
      AddGroupWellFormed(cs[k], prefix + [rest[0]], rest[1..]);
      ChildAfterReplace(cs, k, c', c'.name);
      ChildrenWellFormed(cs, n'.children, c');
  }

  // ---------------------------------------------------------------------------
  // deletePath

  /**
   * Removes the node `rest` below `n`, the node at `prefix`, with its
   * subtree, then removes each ancestor left without children unless it is
   * a storage group; `n` itself always stays.
   */
  function DeleteBelow(n: MNode, prefix: Path, rest: Path): (r: Result<MNode, MetadataError>)
    requires |rest| >= 1
    ensures r.Success? ==> r.value.name == n.name && r.value.kind == n.kind
    decreases rest
  {
    match ChildIndex(n.children, rest[0])
    case None => Failure(PathNotFound(prefix + rest))
    case Some(k) =>
      if |rest| == 1 then Success(n.(children := RemoveAt(n.children, k)))
      else
        var c :- DeleteBelow(n.children[k], prefix + [rest[0]], rest[1..]);
        if c.children == [] && !c.kind.StorageGroup? then Success(n.(children := RemoveAt(n.children, k)))
        else Success(n.(children := n.children[k := c]))
  }

  /** deletePath on the tree rooted at `root`; the root itself cannot be deleted. */
  function DeletePath(root: MNode, path: Path): Result<MNode, MetadataError> {
    if |path| <= 1 || path[0] != root.name then Failure(PathNotLegal(path))
    else DeleteBelow(root, [path[0]], path[1..])
  }

  /** deletePath below `n` succeeds exactly when the node exists, and otherwise reports the path. */
  lemma {:induction false} DeleteOutcome(n: MNode, prefix: Path, rest: Path)
    requires |rest| >= 1
    ensures DeleteBelow(n, prefix, rest).Success? <==> Find(n, rest).Some?
    ensures DeleteBelow(n, prefix, rest).Failure? ==> DeleteBelow(n, prefix, rest).error == PathNotFound(prefix + rest)
    decreases rest
  {
    if |rest| > 1 && ChildIndex(n.children, rest[0]).Some? {
      var c := Child(n.children, rest[0]).value;
      DeleteOutcome(c, prefix + [rest[0]], rest[1..]);
      assert prefix + [rest[0]] + rest[1..] == prefix + rest;
    }
  }

  lemma {:induction false} KindsAfterDelete(n: MNode, prefix: Path, rest: Path, rel: Path)
    requires WellFormed(n) && |rest| >= 1 && DeleteBelow(n, prefix, rest).Success?
    ensures var n' := DeleteBelow(n, prefix, rest).value;
      && (IsPrefix(rest, rel) ==> KindAt(n', rel).None?)
      && (!IsPrefix(rel, rest) && !IsPrefix(rest, rel) ==> KindAt(n', rel) == KindAt(n, rel))
      && (IsStrictPrefix(rel, rest) ==> KindAt(n', rel).None? || KindAt(n', rel) == KindAt(n, rel))
      && (IsStrictPrefix(rel, rest) && KindAt(n, rel) == Some(StorageGroup) ==> KindAt(n', rel) == Some(StorageGroup))
    decreases rest
  {
    var n' := DeleteBelow(n, prefix, rest).value;
    if rel != [] {
      var x := rel[0];
      var k := ChildIndex(n.children, rest[0]).value;
      var c := n.children[k];
      ChildAt(n.children, k);
      KindAtStep(n, rel);
      KindAtStep(n', rel);
      if x == rest[0] {
        PrefixStep(rel, rest);
      }
      if |rest| == 1 {
        ChildAfterRemove(n.children, k, x);
      } else {
        var c' := DeleteBelow(c, prefix + [rest[0]], rest[1..]).value;
        if x == rest[0] {
          KindsAfterDelete(c, prefix + [rest[0]], rest[1..], rel[1..]);
        }
        if c'.children == [] && !c'.kind.StorageGroup? {
          ChildAfterRemove(n.children, k, x);
          if x == rest[0] && rel[1..] != [] {
            KindAtStep(c', rel[1..]);
          }
        } else {
          ChildAfterReplace(n.children, k, c', x);
        }
      }
    }
  }

  /**
   * An ancestor that deletion removes was not a storage group, and everything
   * below it lay on the way to the deleted node or under it.
   */
  lemma {:induction false} PrunedAncestor(n: MNode, prefix: Path, rest: Path, rel: Path, q: Path)
    requires WellFormed(n) && |rest| >= 1 && DeleteBelow(n, prefix, rest).Success?
    requires IsStrictPrefix(rel, rest) && KindAt(DeleteBelow(n, prefix, rest).value, rel).None?
    requires IsPrefix(rel, q) && Find(n, q).Some?
    ensures KindAt(n, rel) != Some(StorageGroup)
    ensures IsPrefix(q, rest) || IsPrefix(rest, q)
    decreases rest
  {
    var n' := DeleteBelow(n, prefix, rest).value;
    var x := rest[0];
    var k := ChildIndex(n.children, x).value;
    var c := n.children[k];
    ChildAt(n.children, k);
    KindAtStep(n', rel);
    KindAtStep(n, rel);
    PrefixStep(rel, rest);
    assert q[0] == x;
    KindAtStep(n, q);
    PrefixStep(q, rest);
    assert rel[1..] == q[1..][..|rel| - 1];
    var c' := DeleteBelow(c, prefix + [x], rest[1..]).value;
    if c'.children == [] && !c'.kind.StorageGroup? {
      KindsAfterDelete(c, prefix + [x], rest[1..], q[1..]);
      if q[1..] != [] {
        KindAtStep(c', q[1..]);
      }
      if rel[1..] != [] {
        KindsAfterDelete(c, prefix + [x], rest[1..], rel[1..]);
        KindAtStep(c', rel[1..]);
      }
    } else {
      ChildAfterReplace(n.children, k, c', x);
      PrunedAncestor(c, prefix + [x], rest[1..], rel[1..], q[1..]);
    }
  }

  /**
   * The node at `rel`, an ancestor of the node at `rest` that is deleted, can
   * be pruned: neither it nor any node between it and `rest` is a storage
   * group, and every node below it lies on the way to `rest` or under it.
   */
  ghost predicate Prunable(n: MNode, rel: Path, rest: Path) {
    && IsStrictPrefix(rel, rest)
    && (forall r :: IsPrefix(rel, r) && IsStrictPrefix(r, rest) ==> KindAt(n, r) != Some(StorageGroup))
    && (forall q :: IsPrefix(rel, q) && Find(n, q).Some? ==> IsPrefix(q, rest) || IsPrefix(rest, q))
  }

  /** Prunability seen from the child on the way. */
  lemma PrunableShift(n: MNode, rel: Path, rest: Path, c: MNode, sub: Path)
    requires Prunable(n, rel, rest) && |rest| >= 2 && Child(n.children, rest[0]) == Some(c)
    requires (rel == [] && sub == []) || (rel != [] && sub == rel[1..])
    ensures Prunable(c, sub, rest[1..])
  {
    var x := rest[0];
    if rel != [] {
      assert rel[0] == x;
      PrefixStep(rel, rest);
    }
    forall r | IsPrefix(sub, r) && IsStrictPrefix(r, rest[1..])
      ensures KindAt(c, r) != Some(StorageGroup)
    {
      var r0 := [x] + r;
      assert r0[0] == x && r0[1..] == r;
      PrefixStep(r0, rest);
      if rel != [] {
        PrefixStep(rel, r0);
      }
      KindAtStep(n, r0);
    }
    forall q | IsPrefix(sub, q) && Find(c, q).Some?
      ensures IsPrefix(q, rest[1..]) || IsPrefix(rest[1..], q)
    {
      var q0 := [x] + q;
      assert q0[0] == x && q0[1..] == q;
      PrefixStep(q0, rest);
      PrefixStep(rest, q0);
      if rel != [] {
        PrefixStep(rel, q0);
      }
      assert Find(n, q0) == Find(c, q);
    }
  }

  lemma FirstTwoNamesDiffer(cs: seq<MNode>)
    requires UniqueNames(cs)
    ensures |cs| >= 2 ==> cs[0].name != cs[1].name
  {
  }

  /** A prunable node is left with no children and is not a storage group. */
  lemma {:induction false} EmptiedWhenPrunable(c: MNode, prefix: Path, rest: Path)
    requires WellFormed(c) && |rest| >= 1 && DeleteBelow(c, prefix, rest).Success?
    requires Prunable(c, [], rest)
    ensures DeleteBelow(c, prefix, rest).value.children == []
    ensures !DeleteBelow(c, prefix, rest).value.kind.StorageGroup?
    decreases rest
  {
    var x := rest[0];
    assert IsPrefix([], []);
    assert KindAt(c, []) != Some(StorageGroup);
    forall i | 0 <= i < |c.children|
      ensures c.children[i].name == x
    {
      var y := c.children[i].name;
      ChildAt(c.children, i);
      assert [y][0] == y && [y][1..] == [];
      assert IsPrefix([], [y]);
      assert Find(c, [y]).Some?;
    }
    var k := ChildIndex(c.children, x).value;
    ChildAt(c.children, k);
    FirstTwoNamesDiffer(c.children);
    assert |c.children| <= 1;
    if |rest| > 1 {
      var d := c.children[k];
      PrunableShift(c, [], rest, d, []);
      EmptiedWhenPrunable(d, prefix + [x], rest[1..]);
    }
    assert RemoveAt(c.children, k) == [];
  }

  /** Deletion removes every prunable ancestor. */
  lemma {:induction false} PrunableRemoved(n: MNode, prefix: Path, rest: Path, rel: Path)
    requires WellFormed(n) && |rest| >= 1 && DeleteBelow(n, prefix, rest).Success?
    requires rel != [] && Prunable(n, rel, rest)
    ensures KindAt(DeleteBelow(n, prefix, rest).value, rel).None?
    decreases rest
  {
    var n' := DeleteBelow(n, prefix, rest).value;
    var x := rest[0];
    assert rel[0] == x;
    var k := ChildIndex(n.children, x).value;
    var c := n.children[k];
    ChildAt(n.children, k);
    KindAtStep(n', rel);
    var sub := rel[1..];
    PrunableShift(n, rel, rest, c, sub);
    var c' := DeleteBelow(c, prefix + [x], rest[1..]).value;
    if sub == [] {
      EmptiedWhenPrunable(c, prefix + [x], rest[1..]);
      ChildAfterRemove(n.children, k, x);
    } else if c'.children == [] && !c'.kind.StorageGroup? {
      ChildAfterRemove(n.children, k, x);
    } else {
      ChildAfterReplace(n.children, k, c', x);
      PrunableRemoved(c, prefix + [x], rest[1..], sub);
    }
  }

  /**
   * The pruning rule of deletion: an ancestor of the deleted node, other than
   * the node deletion starts from, is gone afterwards exactly when it was
   * prunable.
   */
  lemma DeletePruned(n: MNode, prefix: Path, rest: Path, rel: Path)
    requires WellFormed(n) && |rest| >= 1 && DeleteBelow(n, prefix, rest).Success?
    requires rel != [] && IsStrictPrefix(rel, rest)
    ensures KindAt(DeleteBelow(n, prefix, rest).value, rel).None? <==> Prunable(n, rel, rest)
  {
    var n' := DeleteBelow(n, prefix, rest).value;
    if KindAt(n', rel).None? {
      DeleteOutcome(n, prefix, rest);
      forall r | IsPrefix(rel, r) && IsStrictPrefix(r, rest)
        ensures KindAt(n, r) != Some(StorageGroup)
      {
        assert KindAt(n', r).None? by {
          if Find(n', r).Some? {
            AncestorExists(n', rel, r);
          }
        }
        PrunedAncestor(n, prefix, rest, r, rest);
      }
      forall q | IsPrefix(rel, q) && Find(n, q).Some?
        ensures IsPrefix(q, rest) || IsPrefix(rest, q)
      {
        PrunedAncestor(n, prefix, rest, rel, q);
      }
    } else if Prunable(n, rel, rest) {
      PrunableRemoved(n, prefix, rest, rel);
    }
  }

  /**
   * The kinds after a deletion, relative to the node it starts from: the
   * deleted subtree is gone, nodes off the way are unchanged, an ancestor is
   * kept as it was unless it was prunable, in which case it is gone, and a
   * storage group on the way is always kept.
   */
  lemma DeleteKinds(n: MNode, prefix: Path, rest: Path, rel: Path)
    requires WellFormed(n) && |rest| >= 1 && DeleteBelow(n, prefix, rest).Success?
    ensures var n' := DeleteBelow(n, prefix, rest).value;
      && (IsPrefix(rest, rel) ==> KindAt(n', rel).None?)
      && (!IsPrefix(rel, rest) && !IsPrefix(rest, rel) ==> KindAt(n', rel) == KindAt(n, rel))
      && (IsStrictPrefix(rel, rest) ==> KindAt(n', rel).None? || KindAt(n', rel) == KindAt(n, rel))
      && (IsStrictPrefix(rel, rest) && rel != [] ==> (KindAt(n', rel).None? <==> Prunable(n, rel, rest)))
      && (IsStrictPrefix(rel, rest) && KindAt(n, rel) == Some(StorageGroup) ==> KindAt(n', rel) == Some(StorageGroup))
  {
    KindsAfterDelete(n, prefix, rest, rel);
    if IsStrictPrefix(rel, rest) && rel != [] {
      DeletePruned(n, prefix, rest, rel);
    }
  }

  lemma {:induction false} DeleteWellFormed(n: MNode, prefix: Path, rest: Path)
    requires WellFormed(n) && |rest| >= 1 && DeleteBelow(n, prefix, rest).Success?
    ensures WellFormed(DeleteBelow(n, prefix, rest).value)
    ensures HasStorageGroup(DeleteBelow(n, prefix, rest).value) ==> HasStorageGroup(n)
    decreases rest
  {
    var n' := DeleteBelow(n, prefix, rest).value;
    var cs := n.children;
    var k := ChildIndex(cs, rest[0]).value;
    AnyStorageGroupIff(cs);
    AnyStorageGroupIff(n'.children);
    var ds := RemoveAt(cs, k);
    assert forall j :: 0 <= j < |ds| ==> ds[j] == cs[if j < k then j else j + 1];
    ChildAfterRemove(cs, k, rest[0]);
    if |rest| > 1 {
      var c' := DeleteBelow(cs[k], prefix + [rest[0]], rest[1..]).value;
      DeleteWellFormed(cs[k], prefix + [rest[0]], rest[1..]);
      ChildAfterReplace(cs, k, c', c'.name);
      ChildrenWellFormed(cs, n'.children, c');
    }
  }

  // ---------------------------------------------------------------------------
  // The three mutations on whole trees, in terms of absolute paths.

  /** The node at `p`, a prefix of `path`, stops the measurement `path` from being added. */
  ghost predicate LeafBlockedAt(root: MNode, p: Path, path: Path, schema: Schema) {
    || (IsStrictPrefix(p, path) && KindOf(root, p).Some? && KindOf(root, p).value.Measurement?)
    || (p == path && KindOf(root, p).Some? && KindOf(root, p) != Some(Measurement(schema)))
  }

  lemma LeafBlockedAtIff(root: MNode, p: Path, path: Path, schema: Schema)
    requires |path| > 1 && path[0] == root.name
    ensures LeafBlockedAt(root, p, path, schema) <==>
      p != [] && p[0] == root.name && BlocksLeaf(root, p[1..], path[1..], schema)
  {
    if p != [] && p[0] == root.name {
      PrefixStep(p, path);
    }
  }

  /**
   * addPath fails with an illegal-path error when the path does not start at
   * the root or names the root alone; otherwise it succeeds exactly when no
   * measurement lies on the way and no different node sits at the path, and
   * a failure names the node in the way. The tree stays well-formed.
   */
  lemma AddPathSpec(root: MNode, path: Path, schema: Schema)
    requires ValidTree(root)
    ensures !(|path| > 1 && path[0] == root.name) ==> AddPath(root, path, schema) == Failure(PathNotLegal(path))
    ensures |path| > 1 && path[0] == root.name ==>
      (AddPath(root, path, schema).Success? <==> forall p :: !LeafBlockedAt(root, p, path, schema))
    ensures |path| > 1 && path[0] == root.name && AddPath(root, path, schema).Failure? ==>
      && AddPath(root, path, schema).error.PathAlreadyExist?
      && LeafBlockedAt(root, AddPath(root, path, schema).error.path, path, schema)
    ensures AddPath(root, path, schema).Success? ==> ValidTree(AddPath(root, path, schema).value)
  {
    if |path| > 1 && path[0] == root.name {
      var rest := path[1..];
      assert [path[0]] + rest == path;
      AddLeafSucceeds(root, [path[0]], rest, schema);
      forall p ensures LeafBlockedAt(root, p, path, schema) <==> p != [] && p[0] == root.name && BlocksLeaf(root, p[1..], rest, schema) {
        LeafBlockedAtIff(root, p, path, schema);
      }
      if AddPath(root, path, schema).Failure? {
        AddLeafBlocked(root, [path[0]], rest, schema);
        var e := AddPath(root, path, schema).error;
        assert e.path[..1] == [root.name];
        LeafBlockedAtIff(root, e.path, path, schema);
      } else {
        AddLeafWellFormed(root, [path[0]], rest, schema);
      }
    }
  }

  /**
   * After addPath the path is a measurement with the given schema, each
   * missing ancestor exists as a plain level, and every other path is as it was.
   */
  lemma AddPathKinds(root: MNode, path: Path, schema: Schema, q: Path)
    requires ValidTree(root) && AddPath(root, path, schema).Success? && q != []
    ensures KindOf(AddPath(root, path, schema).value, q) ==
      if q == path then Some(Measurement(schema))
      else if IsPrefix(q, path) && KindOf(root, q).None? then Some(Internal)
      else KindOf(root, q)
  {
    if q[0] == root.name {
      AddLeafKinds(root, [path[0]], path[1..], schema, q[1..]);
      PrefixStep(q, path);
    }
  }

  /** The node at `p`, a prefix of `path`, stops `path` from becoming a storage group. */
  ghost predicate GroupBlockedAt(root: MNode, p: Path, path: Path) {
    || (IsStrictPrefix(p, path) && KindOf(root, p).Some? && !KindOf(root, p).value.Internal?)
    || (p == path && KindOf(root, p).Some?)
  }

  lemma GroupBlockedAtIff(root: MNode, p: Path, path: Path)
    requires |path| > 1 && path[0] == root.name
    ensures GroupBlockedAt(root, p, path) <==> p != [] && p[0] == root.name && BlocksGroup(root, p[1..], path[1..])
  {
    if p != [] && p[0] == root.name {
      PrefixStep(p, path);
    }
  }

  /**
   * setStorageGroup fails with an illegal-path error when the path does not
   * start at the root or names the root alone; otherwise it succeeds exactly
   * when nothing exists at the path and only plain levels lie on the way, and a
   * failure names the node in the way. The tree stays well-formed.
   */
  lemma SetStorageGroupSpec(root: MNode, path: Path)
    requires ValidTree(root)
    ensures !(|path| > 1 && path[0] == root.name) ==> SetStorageGroup(root, path) == Failure(PathNotLegal(path))
    ensures |path| > 1 && path[0] == root.name ==>
      (SetStorageGroup(root, path).Success? <==> forall p :: !GroupBlockedAt(root, p, path))
    ensures |path| > 1 && path[0] == root.name && SetStorageGroup(root, path).Failure? ==>
      && SetStorageGroup(root, path).error.PathAlreadyExist?
      && GroupBlockedAt(root, SetStorageGroup(root, path).error.path, path)
    ensures SetStorageGroup(root, path).Success? ==> ValidTree(SetStorageGroup(root, path).value)
  {
    if |path| > 1 && path[0] == root.name {
      var rest := path[1..];
      AddGroupSucceeds(root, [path[0]], rest);
      forall p ensures GroupBlockedAt(root, p, path) <==> p != [] && p[0] == root.name && BlocksGroup(root, p[1..], rest) {
        GroupBlockedAtIff(root, p, path);
      }
      if SetStorageGroup(root, path).Failure? {
        AddGroupBlocked(root, [path[0]], rest);
        var e := SetStorageGroup(root, path).error;
        assert e.path[..1] == [root.name];
        GroupBlockedAtIff(root, e.path, path);
      } else {
        AddGroupWellFormed(root, [path[0]], rest);
      }
    }
  }

  /**
   * After setStorageGroup the path is a storage group, each missing ancestor
   * exists as a plain level, and every other path is as it was.
   */
  lemma SetStorageGroupKinds(root: MNode, path: Path, q: Path)
    requires ValidTree(root) && SetStorageGroup(root, path).Success? && q != []
    ensures KindOf(SetStorageGroup(root, path).value, q) ==
      if q == path then Some(StorageGroup)
      else if IsPrefix(q, path) && KindOf(root, q).None? then Some(Internal)
      else KindOf(root, q)
  {
    if q[0] == root.name {
      AddGroupKinds(root, [path[0]], path[1..], q[1..]);
      PrefixStep(q, path);
    }
  }

  /**
   * deletePath fails with an illegal-path error when the path does not start
   * at the root or names the root alone; otherwise it succeeds exactly when
   * the path exists and fails with not-found when it does not. The tree
   * stays well-formed.
   */
  lemma DeletePathSpec(root: MNode, path: Path)
    requires ValidTree(root)
    ensures !(|path| > 1 && path[0] == root.name) ==> DeletePath(root, path) == Failure(PathNotLegal(path))
    ensures |path| > 1 && path[0] == root.name ==>
      && (DeletePath(root, path).Success? <==> Resolve(root, path).Some?)
      && (DeletePath(root, path).Failure? ==> DeletePath(root, path).error == PathNotFound(path))
    ensures DeletePath(root, path).Success? ==> ValidTree(DeletePath(root, path).value)
  {
    if |path| > 1 && path[0] == root.name {
      DeleteOutcome(root, [path[0]], path[1..]);
      assert [path[0]] + path[1..] == path;
      if DeletePath(root, path).Success? {
        DeleteWellFormed(root, [path[0]], path[1..]);
      }
    }
  }

  /**
   * The node at the absolute path `p`, a proper ancestor of `path` below the
   * root, can be pruned when `path` is deleted: neither it nor any node
   * between it and `path` is a storage group, and every node below it lies
   * on the way to `path` or under it.
   */
  ghost predicate PrunableAt(root: MNode, p: Path, path: Path) {
    && |p| >= 2 && IsStrictPrefix(p, path)
    && (forall r :: IsPrefix(p, r) && IsStrictPrefix(r, path) ==> KindOf(root, r) != Some(StorageGroup))
    && (forall q :: IsPrefix(p, q) && Resolve(root, q).Some? ==> IsPrefix(q, path) || IsPrefix(path, q))
  }

  lemma PrunableAtRelative(root: MNode, p: Path, path: Path)
    requires |p| >= 2 && IsStrictPrefix(p, path) && path[0] == root.name
    ensures PrunableAt(root, p, path) <==> Prunable(root, p[1..], path[1..])
  {
    var x := root.name;
    assert p[0] == x;
    PrefixStep(p, path);
    if PrunableAt(root, p, path) {
      forall r | IsPrefix(p[1..], r) && IsStrictPrefix(r, path[1..])
        ensures KindAt(root, r) != Some(StorageGroup)
      {
        var r0 := [x] + r;
        assert r0[0] == x && r0[1..] == r;
        PrefixStep(p, r0);
        PrefixStep(r0, path);
      }
      forall q | IsPrefix(p[1..], q) && Find(root, q).Some?
        ensures IsPrefix(q, path[1..]) || IsPrefix(path[1..], q)
      {
        var q0 := [x] + q;
        assert q0[0] == x && q0[1..] == q;
        PrefixStep(p, q0);
        PrefixStep(q0, path);
        PrefixStep(path, q0);
      }
    }
    if Prunable(root, p[1..], path[1..]) {
      forall r | IsPrefix(p, r) && IsStrictPrefix(r, path)
        ensures KindOf(root, r) != Some(StorageGroup)
      {
        PrefixStep(p, r);
        PrefixStep(r, path);
      }
      forall q | IsPrefix(p, q) && Resolve(root, q).Some?
        ensures IsPrefix(q, path) || IsPrefix(path, q)
      {
        PrefixStep(p, q);
        PrefixStep(q, path);
        PrefixStep(path, q);
      }
    }
  }

  /**
   * The pruning rule of deletePath: a proper ancestor of the deleted path
   * below the root is gone afterwards exactly when it was prunable.
   */
  lemma DeletePathPrunes(root: MNode, path: Path, p: Path)
    requires ValidTree(root) && DeletePath(root, path).Success?
    requires |p| >= 2 && IsStrictPrefix(p, path)
    ensures KindOf(DeletePath(root, path).value, p).None? <==> PrunableAt(root, p, path)
  {
    assert p[0] == path[0];
    PrefixStep(p, path);
    PrunableAtRelative(root, p, path);
    DeletePruned(root, [path[0]], path[1..], p[1..]);
  }

  /**
   * After deletePath the path and everything under it are gone, paths off
   * the way are untouched, the root stays, an ancestor below the root is kept
   * as it was unless it was prunable, in which case it is gone, and a storage
   * group on the way is never pruned.
   */
  lemma DeletePathKinds(root: MNode, path: Path, q: Path)
    requires ValidTree(root) && DeletePath(root, path).Success? && q != []
    ensures var t := DeletePath(root, path).value;
      && (IsPrefix(path, q) ==> KindOf(t, q).None?)
      && (!IsPrefix(q, path) && !IsPrefix(path, q) ==> KindOf(t, q) == KindOf(root, q))
      && (|q| == 1 ==> KindOf(t, q) == KindOf(root, q))
      && (IsStrictPrefix(q, path) ==> KindOf(t, q).None? || KindOf(t, q) == KindOf(root, q))
      && (IsStrictPrefix(q, path) && |q| >= 2 ==> (KindOf(t, q).None? <==> PrunableAt(root, q, path)))
      && (IsStrictPrefix(q, path) && KindOf(root, q) == Some(StorageGroup) ==> KindOf(t, q) == Some(StorageGroup))
  {
    if q[0] == root.name {
      KindsAfterDelete(root, [path[0]], path[1..], q[1..]);
      PrefixStep(q, path);
      PrefixStep(path, q);
    }
    if IsStrictPrefix(q, path) && |q| >= 2 {
      DeletePathPrunes(root, path, q);
    }
  }
}
