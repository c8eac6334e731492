/**
 * The MTree object: one mutable tree, changed in place by addPath,
 * setStorageGroup and deletePath and read by the queries in MTreeQuery.
 * Each mutation either throws and leaves the tree alone, or installs the
 * tree the matching function of MTreeUpdate computes.
 */
module MTreeObject {
  import opened Wrappers
  import opened Paths
  import opened MNodes
  import MTreeQuery
  import MTreeUpdate

  class MTree {
    var root: MNode

    /** The tree is well-formed under a plain root node. */
    ghost predicate Valid()
      reads this
    {
      ValidTree(root)
    }

    /** A new tree holds its root and nothing else. */
    constructor(rootName: string)
      ensures Valid() && root == MTreeQuery.EmptyTree(rootName)
    {
      root := MNode(rootName, Internal, []);
    }

    method AddPath(path: Path, schema: Schema) returns (o: Outcome<MetadataError>)
      requires Valid()
      modifies this
      ensures Valid()
      ensures match MTreeUpdate.AddPath(old(root), path, schema)
        case Success(t) => o.Pass? && root == t
        case Failure(e) => o == Fail(e) && root == old(root)
    {
      MTreeUpdate.AddPathSpec(root, path, schema);
      match MTreeUpdate.AddPath(root, path, schema)
      case Success(t) =>
        root := t;
        o := Pass;
      case Failure(e) =>
        o := Fail(e);
    }

    method SetStorageGroup(path: Path) returns (o: Outcome<MetadataError>)
      requires Valid()
      modifies this
      ensures Valid()
      ensures match MTreeUpdate.SetStorageGroup(old(root), path)
        case Success(t) => o.Pass? && root == t
        case Failure(e) => o == Fail(e) && root == old(root)
    {
      MTreeUpdate.SetStorageGroupSpec(root, path);
      match MTreeUpdate.SetStorageGroup(root, path)
      case Success(t) =>
        root := t;
        o := Pass;
      case Failure(e) =>
        o := Fail(e);
    }

    method DeletePath(path: Path) returns (o: Outcome<MetadataError>)
      requires Valid()
      modifies this
      ensures Valid()
      ensures match MTreeUpdate.DeletePath(old(root), path)
        case Success(t) => o.Pass? && root == t
        case Failure(e) => o == Fail(e) && root == old(root)
    {
      MTreeUpdate.DeletePathSpec(root, path);
      match MTreeUpdate.DeletePath(root, path)
      case Success(t) =>
        root := t;
        o := Pass;
      case Failure(e) =>
        o := Fail(e);
    }

    method IsPathExist(path: Path) returns (b: bool)
      requires Valid()
      ensures b == MTreeQuery.IsPathExist(root, path)
    {
      b := MTreeQuery.IsPathExist(root, path);
    }

    method CheckStorageGroup(path: Path) returns (b: bool)
      requires Valid()
      ensures b == MTreeQuery.CheckStorageGroup(root, path)
    {
      b := MTreeQuery.CheckStorageGroup(root, path);
    }

    method CheckStorageGroupByPath(path: Path) returns (b: bool)
      requires Valid()
      ensures b <==> exists k :: 1 <= k <= |path| && MTreeQuery.CheckStorageGroup(root, path[..k])
    {
      MTreeQuery.CheckStorageGroupByPathIff(root, path);
      b := MTreeQuery.CheckStorageGroupByPath(root, path);
    }

    method GetStorageGroupNameByPath(path: Path) returns (r: Result<Path, MetadataError>)
      requires Valid()
      ensures r == MTreeQuery.GetStorageGroupNameByPath(root, path)
      ensures r.Success? ==> IsPrefix(r.value, path) && MTreeQuery.CheckStorageGroup(root, r.value)
      ensures r.Failure? ==> r.error == PathNotFound(path)
    {
      MTreeQuery.GetStorageGroupNameByPathSpec(root, path);
      r := MTreeQuery.GetStorageGroupNameByPath(root, path);
    }

    method GetAllStorageGroupByPath(pattern: Path) returns (r: Result<seq<Path>, MetadataError>)
      requires Valid()
      ensures r == MTreeQuery.GetAllStorageGroupByPath(root, pattern)
      ensures r.Failure? <==> pattern == [] || pattern[0] != root.name
    {
      MTreeQuery.GetAllStorageGroupByPathSpec(root, pattern, []);
      r := MTreeQuery.GetAllStorageGroupByPath(root, pattern);
    }

    method GetAllPath(pattern: Path) returns (r: Result<map<Option<Path>, seq<Path>>, MetadataError>)
      requires Valid()
      ensures r == MTreeQuery.GetAllPath(root, pattern)
      ensures r.Failure? <==> pattern == [] || pattern[0] != root.name
    {
      MTreeQuery.GetAllPathSpec(root, pattern, None, []);
      r := MTreeQuery.GetAllPath(root, pattern);
    }
  }
}
