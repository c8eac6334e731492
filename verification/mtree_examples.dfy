/**
 * The scenarios of the MTree tests, replayed on the model: each lemma states
 * the outcome a test expects on the tree that test works with. LeafBelowLeaf
 * and TwoGroups build their trees with the model's own operations; the other
 * lemmas write the test's tree out node by node (TwoGroups shows that the
 * tree TwoGroupsQueries starts from is the one setStorageGroup builds).
 */
module MTreeExamples {
  import opened Wrappers
  import opened Paths
  import opened MNodes
  import opened MTreeQuery
  import opened MTreeUpdate
  import opened MTreeMerge

  /** Adding a measurement below a measurement names the one in the way. */
  lemma LeafBelowLeaf(schema: Schema)
    ensures var t := AddPath(EmptyTree("root"), ["root", "laptop", "d1", "s1"], schema);
      && t.Success?
      && AddPath(t.value, ["root", "laptop", "d1", "s1", "b"], schema)
         == Failure(PathAlreadyExist(["root", "laptop", "d1", "s1"]))
  {
    var s1 := MNode("s1", Measurement(schema), []);
    var d1 := MNode("d1", Internal, [s1]);
    var laptop := MNode("laptop", Internal, [d1]);
    var tree := MNode("root", Internal, [laptop]);
    assert Spine(["laptop", "d1", "s1"], Measurement(schema)) == laptop by {
      assert ["laptop", "d1", "s1"][1..] == ["d1", "s1"];
      assert ["d1", "s1"][1..] == ["s1"];
    }
    var p1: Path := ["root", "laptop", "d1", "s1"];
    assert p1[1..] == ["laptop", "d1", "s1"];
    assert ChildIndex([], "laptop") == None;
    assert [] + [laptop] == [laptop];
    assert AddPath(EmptyTree("root"), p1, schema) == Success(tree);
    var path: Path := ["root", "laptop", "d1", "s1", "b"];
    assert path[1..] == ["laptop", "d1", "s1", "b"];
    assert ChildIndex(tree.children, "laptop") == Some(0);
    assert ChildIndex(laptop.children, "d1") == Some(0);
    assert ChildIndex(d1.children, "s1") == Some(0);
    assert ["laptop", "d1", "s1", "b"][1..] == ["d1", "s1", "b"];
    assert ["d1", "s1", "b"][1..] == ["s1", "b"];
    assert ["s1", "b"][1..] == ["b"];
    assert AddLeaf(s1, ["root", "laptop", "d1", "s1"], ["b"], schema) == Failure(PathAlreadyExist(["root", "laptop", "d1", "s1"]));
    assert ["root"] + ["laptop"] == ["root", "laptop"];
    assert ["root", "laptop"] + ["d1"] == ["root", "laptop", "d1"];
    assert ["root", "laptop", "d1"] + ["s1"] == ["root", "laptop", "d1", "s1"];
  }

  /** The tree with storage groups root.laptop.d1 and root.laptop.d2, built in that order. */
  lemma TwoGroups()
    ensures var t1 := SetStorageGroup(EmptyTree("root"), ["root", "laptop", "d1"]);
      && t1.Success?
      && SetStorageGroup(t1.value, ["root", "laptop", "d2"])
         == Success(MNode("root", Internal, [MNode("laptop", Internal, [
              MNode("d1", StorageGroup, []), MNode("d2", StorageGroup, [])])]))
  {
    var d1 := MNode("d1", StorageGroup, []);
    var d2 := MNode("d2", StorageGroup, []);
    var laptop := MNode("laptop", Internal, [d1]);
    var p1: Path := ["root", "laptop", "d1"];
    assert p1[1..] == ["laptop", "d1"];
    assert ["laptop", "d1"][1..] == ["d1"];
    assert Spine(["laptop", "d1"], StorageGroup) == laptop;
    assert ChildIndex([], "laptop") == None;
    assert [] + [laptop] == [laptop];
    var t1 := MNode("root", Internal, [laptop]);
    assert SetStorageGroup(EmptyTree("root"), p1) == Success(t1);
    var p2: Path := ["root", "laptop", "d2"];
    assert p2[1..] == ["laptop", "d2"];
    assert ["laptop", "d2"][1..] == ["d2"];
    assert ChildIndex(t1.children, "laptop") == Some(0);
    assert ChildIndex(laptop.children, "d2") == None;
    assert Spine(["d2"], StorageGroup) == d2;
    assert [d1] + [d2] == [d1, d2];
    assert ["root"] + ["laptop"] == ["root", "laptop"];
    var laptop' := MNode("laptop", Internal, [d1, d2]);
    assert AddGroup(laptop, ["root", "laptop"], ["d2"]) == Success(laptop');
    assert t1.children[0 := laptop'] == [laptop'];
    assert AddGroup(t1, ["root"], ["laptop", "d2"]) == Success(MNode("root", Internal, [laptop']));
  }

  /**
   * With storage groups root.laptop.d1 and root.laptop.d2: root.laptop cannot
   * become a storage group, a path below root.laptop.d1 that does not exist
   * yet still belongs to it, and the storage groups reached from root.laptop
   * are listed in creation order.
   */
  lemma TwoGroupsQueries()
    ensures var t := MNode("root", Internal, [MNode("laptop", Internal, [
              MNode("d1", StorageGroup, []), MNode("d2", StorageGroup, [])])]);
      && SetStorageGroup(t, ["root", "laptop"]) == Failure(PathAlreadyExist(["root", "laptop"]))
      && !IsPathExist(t, ["root", "laptop", "d1", "s1"])
      && CheckStorageGroupByPath(t, ["root", "laptop", "d1", "s1"])
      && GetStorageGroupNameByPath(t, ["root", "laptop", "d1", "s1"]) == Success(["root", "laptop", "d1"])
      && GetAllStorageGroupByPath(t, ["root", "laptop"]) == Success([["root", "laptop", "d1"], ["root", "laptop", "d2"]])
  {
    var d1 := MNode("d1", StorageGroup, []);
    var d2 := MNode("d2", StorageGroup, []);
    var laptop := MNode("laptop", Internal, [d1, d2]);
    var t := MNode("root", Internal, [laptop]);
    assert ChildIndex(t.children, "laptop") == Some(0);
    assert ChildIndex(laptop.children, "d1") == Some(0);
    assert ChildIndex(laptop.children, "d2") == Some(1);
    assert ChildIndex(d1.children, "s1") == None;
    var p: Path := ["root", "laptop"];
    assert p[1..] == ["laptop"];
    assert ["root"] + ["laptop"] == ["root", "laptop"];
    assert AddGroup(t, ["root"], ["laptop"]) == Failure(PathAlreadyExist(["root", "laptop"]));
    var q: Path := ["root", "laptop", "d1", "s1"];
    assert q[1..] == ["laptop", "d1", "s1"];
    assert ["laptop", "d1", "s1"][1..] == ["d1", "s1"];
    assert ["d1", "s1"][1..] == ["s1"];
    assert Find(t, q[1..]) == None;
    assert FirstGroup(d1, ["s1"]) == Some(0);
    assert FirstGroup(t, q[1..]) == Some(2);
    assert q[..3] == ["root", "laptop", "d1"];
    assert laptop.children[1..] == [d2];
    assert CollectGroups(d2, ["root", "laptop", "d2"], []) == [["root", "laptop", "d2"]];
    assert [d2][1..] == [];
    assert ["root", "laptop"] + ["d2"] == ["root", "laptop", "d2"];
    assert ["root", "laptop"] + ["d1"] == ["root", "laptop", "d1"];
    assert CollectGroupsIn([], ["root", "laptop"], []) == [];
    assert CollectGroupsIn([d2], ["root", "laptop"], []) == [["root", "laptop", "d2"]];
    assert CollectGroups(d1, ["root", "laptop", "d1"], []) == [["root", "laptop", "d1"]];
    assert CollectGroupsIn(laptop.children, ["root", "laptop"], []) == [["root", "laptop", "d1"], ["root", "laptop", "d2"]];
    assert CollectGroups(laptop, ["root", "laptop"], []) == [["root", "laptop", "d1"], ["root", "laptop", "d2"]];
  }

  /** root.a.<group> holding the measurements s0 and s1 of one schema. */
  function GroupWithTwo(group: string, schema: Schema): MNode {
    MNode(group, StorageGroup, [MNode("s0", Measurement(schema), []), MNode("s1", Measurement(schema), [])])
  }

  /** root.a.b.d0 holding the measurement s0. */
  function NestedGroup(schema: Schema): MNode {
    MNode("b", Internal, [MNode("d0", StorageGroup, [MNode("s0", Measurement(schema), [])])])
  }

  function UnderA(cs: seq<MNode>): MNode {
    MNode("root", Internal, [MNode("a", Internal, cs)])
  }

  /** The first two trees merge into one holding both groups, d0 first. */
  lemma CombineFirstStep(schema: Schema)
    ensures Merge(UnderA([GroupWithTwo("d0", schema)]), UnderA([GroupWithTwo("d1", schema)]), ["root"])
      == Success(UnderA([GroupWithTwo("d0", schema), GroupWithTwo("d1", schema)]))
  {
    var d0, d1 := GroupWithTwo("d0", schema), GroupWithTwo("d1", schema);
    var a1, a2, a12 := MNode("a", Internal, [d0]), MNode("a", Internal, [d1]), MNode("a", Internal, [d0, d1]);
    assert Child([d1], "d0") == None;
    assert [d0][1..] == [] && [d0] + [] == [d0];
    assert MergeEach([], [d1], ["root", "a"]) == Success([]);
    assert MergeEach([d0], [d1], ["root", "a"]) == Success([d0]);
    assert Child([d0], "d1") == None;
    assert Missing([d1], [d0]) == [d1];
    assert [d0] + [d1] == [d0, d1];
    assert Merge(a1, a2, ["root", "a"]) == Success(a12);
    assert ["root"] + ["a"] == ["root", "a"];
    assert Child([a2], "a") == Some(a2);
    assert [a1][1..] == [] && [a12] + [] == [a12];
    assert MergeEach([], [a2], ["root"]) == Success([]);
    assert MergeEach([a1], [a2], ["root"]) == Success([a12]);
    assert Missing([a2], [a1]) == [];
  }

  /** The third tree adds root.a.b after the two groups. */
  lemma CombineSecondStep(schema: Schema)
    ensures Merge(UnderA([GroupWithTwo("d0", schema), GroupWithTwo("d1", schema)]), UnderA([NestedGroup(schema)]), ["root"])
      == Success(UnderA([GroupWithTwo("d0", schema), GroupWithTwo("d1", schema), NestedGroup(schema)]))
  {
    var d0, d1, b := GroupWithTwo("d0", schema), GroupWithTwo("d1", schema), NestedGroup(schema);
    var a12, a3, a123 := MNode("a", Internal, [d0, d1]), MNode("a", Internal, [b]), MNode("a", Internal, [d0, d1, b]);
    assert Child([b], "d0") == None && Child([b], "d1") == None;
    assert [d0, d1][1..] == [d1] && [d1][1..] == [];
    assert MergeEach([], [b], ["root", "a"]) == Success([]);
    assert [d1] + [] == [d1] && [d0] + [d1] == [d0, d1];
    assert MergeEach([d1], [b], ["root", "a"]) == Success([d1]);
    assert MergeEach([d0, d1], [b], ["root", "a"]) == Success([d0, d1]);
    assert Child([d0, d1], "b") == None;
    assert Missing([b], [d0, d1]) == [b];
    assert [d0, d1] + [b] == [d0, d1, b];
    assert ["root"] + ["a"] == ["root", "a"];
    assert Merge(a12, a3, ["root", "a"]) == Success(a123);
    assert Child([a3], "a") == Some(a3);
    assert [a12][1..] == [] && [a123] + [] == [a123];
    assert MergeEach([], [a3], ["root"]) == Success([]);
    assert MergeEach([a12], [a3], ["root"]) == Success([a123]);
    assert Missing([a3], [a12]) == [];
  }

  /**
   * Combining the trees of storage groups root.a.d0, root.a.d1 and
   * root.a.b.d0 gives the one tree that holds all three, root.a's children
   * in first-seen order.
   */
  lemma CombineThreeGroups(schema: Schema)
    ensures Combine([UnderA([GroupWithTwo("d0", schema)]), UnderA([GroupWithTwo("d1", schema)]), UnderA([NestedGroup(schema)])])
      == Success(UnderA([GroupWithTwo("d0", schema), GroupWithTwo("d1", schema), NestedGroup(schema)]))
  {
    var d0, d1, b := GroupWithTwo("d0", schema), GroupWithTwo("d1", schema), NestedGroup(schema);
    var r1, r2, r3 := UnderA([d0]), UnderA([d1]), UnderA([b]);
    var r12, r123 := UnderA([d0, d1]), UnderA([d0, d1, b]);
    CombineFirstStep(schema);
    CombineSecondStep(schema);
    assert [r3][1..] == [];
    assert CombineInto(r123, []) == Success(r123);
    assert CombineInto(r12, [r3]) == Success(r123);
    assert [r2, r3][1..] == [r3];
    assert CombineInto(r1, [r2, r3]) == Success(r123);
    assert [r1, r2, r3][1..] == [r2, r3];
  }

  /** root.a of the tree testAddAndQueryPath builds: storage groups d0, d1 and b.d0 with their series. */
  function QueryA(schema: Schema): MNode {
    MNode("a", Internal, [GroupWithTwo("d0", schema), GroupWithTwo("d1", schema), NestedGroup(schema)])
  }

  /** The tree testAddAndQueryPath builds. */
  function QueryTree(schema: Schema): MNode {
    MNode("root", Internal, [QueryA(schema)])
  }

  /** A group holding s0 and s1 files its s0 under itself. */
  lemma GroupMatchesS0(g: string, schema: Schema, p: Path)
    ensures MatchLeaves(GroupWithTwo(g, schema), p, ["s0"], None) == [(Some(p), p + ["s0"])]
  {
    var n := GroupWithTwo(g, schema);
    assert ChildIndex(n.children, "s0") == Some(0);
    assert ["s0"][1..] == [];
  }

  /** Under a group, a wildcard reaches only measurements, which end the walk before s0. */
  lemma GroupMissesStarS0(g: string, schema: Schema, p: Path)
    ensures MatchLeaves(GroupWithTwo(g, schema), p, ["*", "s0"], None) == []
  {
    var n := GroupWithTwo(g, schema);
    var cs := n.children;
    assert "*" == Wildcard && ["*", "s0"][1..] == ["s0"];
    assert cs[1..] == [cs[1]] && cs[1..][1..] == [];
    assert MatchLeaves(cs[0], p + ["s0"], ["s0"], Some(p)) == [];
    assert MatchLeaves(cs[1], p + ["s1"], ["s0"], Some(p)) == [];
    assert MatchLeavesIn(cs[1..], p, ["s0"], Some(p)) == [];
    assert MatchLeavesIn(cs, p, ["s0"], Some(p)) == [];
  }

  /** b has no child s0. */
  lemma NestedMissesS0(schema: Schema, p: Path)
    ensures MatchLeaves(NestedGroup(schema), p, ["s0"], None) == []
  {
    assert ChildIndex(NestedGroup(schema).children, "s0") == None;
  }

  /** b.*.s0 reaches b.d0.s0, filed under b.d0. */
  lemma NestedMatchesStarS0(schema: Schema, p: Path)
    ensures MatchLeaves(NestedGroup(schema), p, ["*", "s0"], None) == [(Some(p + ["d0"]), p + ["d0"] + ["s0"])]
  {
    var d0 := NestedGroup(schema).children[0];
    var q := p + ["d0"];
    assert ChildIndex(d0.children, "s0") == Some(0);
    assert "*" == Wildcard && ["*", "s0"][1..] == ["s0"] && ["s0"][1..] == [];
    assert NestedGroup(schema).children[1..] == [];
    assert MatchLeaves(d0.children[0], q + ["s0"], [], Some(q)) == [(Some(q), q + ["s0"])];
    assert MatchLeaves(d0, q, ["s0"], None) == [(Some(q), q + ["s0"])];
    assert MatchLeavesIn(NestedGroup(schema).children, p, ["s0"], None) == [(Some(q), q + ["s0"])];
  }

  lemma MatchUnderA(schema: Schema)
    ensures MatchLeaves(QueryA(schema), ["root", "a"], ["*", "s0"], None) ==
      [(Some(["root", "a", "d0"]), ["root", "a", "d0", "s0"]), (Some(["root", "a", "d1"]), ["root", "a", "d1", "s0"])]
  {
    var cs := QueryA(schema).children;
    var ra: Path := ["root", "a"];
    var m1, m2 := (Some(ra + ["d0"]), ra + ["d0"] + ["s0"]), (Some(ra + ["d1"]), ra + ["d1"] + ["s0"]);
    assert MatchLeavesIn(cs[2..], ra, ["s0"], None) == [] by {
      NestedMissesS0(schema, ra + ["b"]);
      assert cs[2..] == [NestedGroup(schema)] && cs[2..][1..] == [];
    }
    assert MatchLeavesIn(cs[1..], ra, ["s0"], None) == [m2] by {
      GroupMatchesS0("d1", schema, ra + ["d1"]);
      assert cs[1..][0] == GroupWithTwo("d1", schema) && cs[1..][1..] == cs[2..];
    }
    assert MatchLeavesIn(cs, ra, ["s0"], None) == [m1, m2] by {
      GroupMatchesS0("d0", schema, ra + ["d0"]);
      assert cs[0] == GroupWithTwo("d0", schema);
    }
    assert "*" == Wildcard && ["*", "s0"][1..] == ["s0"];
    assert ra + ["d0"] == ["root", "a", "d0"] && ra + ["d1"] == ["root", "a", "d1"];
    assert ["root", "a", "d0"] + ["s0"] == ["root", "a", "d0", "s0"] && ["root", "a", "d1"] + ["s0"] == ["root", "a", "d1", "s0"];
  }

  lemma MatchTwoUnderA(schema: Schema)
    ensures MatchLeaves(QueryA(schema), ["root", "a"], ["*", "*", "s0"], None) ==
      [(Some(["root", "a", "b", "d0"]), ["root", "a", "b", "d0", "s0"])]
  {
    var cs := QueryA(schema).children;
    var ra: Path := ["root", "a"];
    var m3 := (Some(ra + ["b"] + ["d0"]), ra + ["b"] + ["d0"] + ["s0"]);
    assert MatchLeavesIn(cs[2..], ra, ["*", "s0"], None) == [m3] by {
      NestedMatchesStarS0(schema, ra + ["b"]);
      assert cs[2..] == [NestedGroup(schema)] && cs[2..][1..] == [];
    }
    assert MatchLeavesIn(cs[1..], ra, ["*", "s0"], None) == [m3] by {
      GroupMissesStarS0("d1", schema, ra + ["d1"]);
      assert cs[1..][0] == GroupWithTwo("d1", schema) && cs[1..][1..] == cs[2..];
    }
    assert MatchLeavesIn(cs, ra, ["*", "s0"], None) == [m3] by {
      GroupMissesStarS0("d0", schema, ra + ["d0"]);
      assert cs[0] == GroupWithTwo("d0", schema);
    }
    assert "*" == Wildcard && ["*", "*", "s0"][1..] == ["*", "s0"];
    assert ra + ["b"] + ["d0"] == ["root", "a", "b", "d0"];
    assert ["root", "a", "b", "d0"] + ["s0"] == ["root", "a", "b", "d0", "s0"];
  }

  /** From the root, the pattern's first segment leads to root.a. */
  lemma MatchFromRoot(schema: Schema, pat: Path)
    requires pat != [] && pat[0] == "a"
    ensures MatchLeaves(QueryTree(schema), ["root"], pat, None) == MatchLeaves(QueryA(schema), ["root", "a"], pat[1..], None)
  {
    assert Child(QueryTree(schema).children, "a") == Some(QueryA(schema));
    assert "a" != Wildcard && ["root"] + ["a"] == ["root", "a"];
  }

  lemma GroupOne(m: (Option<Path>, Path))
    ensures Group([m]) == map[m.0 := [m.1]]
  {
    var none: seq<(Option<Path>, Path)> := [];
    var empty: seq<Path> := [];
    assert [m][..0] == none && Group(none) == map[];
    assert empty + [m.1] == [m.1];
  }

  lemma GroupTwo(m1: (Option<Path>, Path), m2: (Option<Path>, Path))
    requires m1.0 != m2.0
    ensures Group([m1, m2]) == map[m1.0 := [m1.1], m2.0 := [m2.1]]
  {
    var empty: seq<Path> := [];
    var ms := [m1, m2];
    assert ms[..|ms| - 1] == [m1] && ms[|ms| - 1] == m2;
    GroupOne(m1);
    var g1 := Group([m1]);
    assert m2.0 !in g1;
    assert Group(ms) == g1[m2.0 := empty + [m2.1]];
    assert empty + [m2.1] == [m2.1];
  }

  /** getAllPath files each matched series under its storage group. */
  lemma AddAndQueryPaths(schema: Schema)
    ensures GetAllPath(QueryTree(schema), ["root", "a", "*", "s0"]) == Success(map[
      Some(["root", "a", "d0"]) := [["root", "a", "d0", "s0"]],
      Some(["root", "a", "d1"]) := [["root", "a", "d1", "s0"]]])
  {
    MatchFromRoot(schema, ["a", "*", "s0"]);
    assert ["root", "a", "*", "s0"][1..] == ["a", "*", "s0"] && ["a", "*", "s0"][1..] == ["*", "s0"];
    MatchUnderA(schema);
    GroupTwo((Some(["root", "a", "d0"]), ["root", "a", "d0", "s0"]), (Some(["root", "a", "d1"]), ["root", "a", "d1", "s0"]));
  }

  /** A second wildcard reaches one level further down, into root.a.b. */
  lemma AddAndQueryNestedPaths(schema: Schema)
    ensures GetAllPath(QueryTree(schema), ["root", "a", "*", "*", "s0"]) == Success(map[
      Some(["root", "a", "b", "d0"]) := [["root", "a", "b", "d0", "s0"]]])
  {
    MatchFromRoot(schema, ["a", "*", "*", "s0"]);
    assert ["root", "a", "*", "*", "s0"][1..] == ["a", "*", "*", "s0"] && ["a", "*", "*", "s0"][1..] == ["*", "*", "s0"];
    MatchTwoUnderA(schema);
    GroupOne((Some(["root", "a", "b", "d0"]), ["root", "a", "b", "d0", "s0"]));
  }
}
