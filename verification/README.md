# MTree metadata tree and external-sort spill file, modelled in Dafny

This project models two parts of Apache IoTDB's server.

**The metadata tree (MTree).** Every time series is a path of names under a root, e.g. `root.laptop.d1.s1`.
- An inner node is a plain level or a *storage group*. Storage groups never nest.
- A leaf is a *measurement* carrying its schema: data type, encoding, compressor and properties.
- The tree supports these operations:
  - `addPath`, `setStorageGroup`, `deletePath`;
  - existence and storage-group checks;
  - the storage group a path lives in;
  - the storage groups a path reaches;
  - one-level wildcard expansion grouped by storage group (`getAllPath`);
  - the union of trees built apart (`combineMetadataInStrings`).

The MTree implementation is not part of this model. Its behaviour is taken from the assertions in `MTreeTest.java`.

The model is split into modules:
- `MNodes`: the tree as a value, with its invariants (`WellFormed`, `ValidTree`).
- `MTreeUpdate`: each mutation as a function from the old tree to the new tree or the error it throws.
- `MTreeQuery`: the queries.
- `MTreeMerge`: the combination of trees.
- `MTreeObject.MTree`: a class that holds the tree in a field. Its methods change the field in place, and their contracts tie each change to those functions.
- `MTreeExamples`: replays several of the test scenarios on the model.

**The fixed-length external-sort spill file** (`FixLengthIExternalSortFileDeserializer`).
- The file starts with a 2-byte type code.
- Then come records. Each is an 8-byte timestamp followed by a value: 1, 4 or 8 bytes, or for TEXT a 4-byte length L and then L bytes.

The model is split into two modules:
- `SpillFormat`: the byte layout as pure decoding functions, plus the encoding the reader expects a writer to produce. It proves round trips in both directions.
- `SpillReader`: the deserializer, imperatively. A `ByteStream` class has a cursor. A `RecordReader` class keeps its reusable byte arrays. A `Deserializer` class has `HasNext` and `Next`. Every method is proved against `SpillFormat`.

Behaviour worth noting:
- The class comment of the deserializer says the header is a 4-byte length plus the type's name. The code reads one 2-byte short and maps it to a type, and so does the model.
- `addPath` does not need an enclosing storage group. The tests add `root.laptop.d1.s1` to a tree with no storage group.
- `checkStorageGroupByPath` and `getStorageGroupNameByPath` succeed for a path that does not exist yet but lies under a storage group. The test expects `root.laptop.d1` for `root.laptop.d1.s1` before that measurement exists.

## Model

| member | source | states |
|---|---|---|
| `MTreeObject.MTree.constructor` | server/src/test/java/org/apache/iotdb/db/metadata/MTreeTest.java:77-80 | A new tree is valid and holds only its root. |
| `MTreeQuery.EmptyTreeHoldsRoot` | server/src/test/java/org/apache/iotdb/db/metadata/MTreeTest.java:77-80 | In a new tree, a path exists exactly when it is the root's own path. So `root` exists and `root.laptop.d1` does not. |
| `MTreeObject.MTree.AddPath` | server/src/test/java/org/apache/iotdb/db/metadata/MTreeTest.java:53-98 | Either throws the error `MTreeUpdate.AddPath` gives and leaves the tree alone, or installs the tree it computes. The tree stays valid. |
| `MTreeUpdate.AddPathSpec` | server/src/test/java/org/apache/iotdb/db/metadata/MTreeTest.java:53-98 | A path outside the root, or the root alone, is not legal. Otherwise addPath succeeds exactly when no measurement lies strictly on the way and no different node sits at the path. A failure is "already exist" and names the blocking node. Success keeps the tree valid. |
| `MTreeUpdate.AddPathKinds` | server/src/test/java/org/apache/iotdb/db/metadata/MTreeTest.java:82-90 | After addPath:<br>• the path is a measurement with the given schema;<br>• its ancestors that did not exist are now plain levels;<br>• every other path keeps its kind or stays absent. |
| `MTreeUpdate.AddLeafKinds` | server/src/test/java/org/apache/iotdb/db/metadata/MTreeTest.java:82-90 | The same, relative to any node the walk passes. |
| `MTreeUpdate.AddLeafSucceeds` | server/src/test/java/org/apache/iotdb/db/metadata/MTreeTest.java:310-313 | Adding below a node succeeds exactly when no prefix of the rest blocks it. A block is a measurement strictly on the way, or a node at the path that is not the same measurement. Re-adding an identical measurement therefore succeeds. |
| `MTreeUpdate.AddLeafBlocked` | server/src/test/java/org/apache/iotdb/db/metadata/MTreeTest.java:64-71 | A failing add is "already exist". It names a path that starts with the walked prefix and ends at a blocking node. |
| `MTreeUpdate.AddLeafWellFormed` | server/src/test/java/org/apache/iotdb/db/metadata/MTreeTest.java:53-98 | Adding a measurement keeps the tree well-formed:<br>• sibling names stay unique;<br>• nothing hangs under a measurement;<br>• storage groups do not nest.<br>It neither adds nor removes a storage group. |
| `MTreeUpdate.SpineKinds` | server/src/test/java/org/apache/iotdb/db/metadata/MTreeTest.java:88-89 | The chain of new levels holds plain levels down to the node of the requested kind, and nothing else. |
| `MTreeUpdate.SpineWellFormed` | server/src/test/java/org/apache/iotdb/db/metadata/MTreeTest.java:88-89 | A chain of new levels is well-formed. It holds a storage group exactly when its last node is one. |
| `MTreeExamples.LeafBelowLeaf` | server/src/test/java/org/apache/iotdb/db/metadata/MTreeTest.java:53-72 | Adding `root.laptop.d1.s1` to a new tree succeeds. Adding `root.laptop.d1.s1.b` after it fails with "already exist" on `root.laptop.d1.s1`. |
| `Paths.LeafExistsMessage` | server/src/test/java/org/apache/iotdb/db/metadata/MTreeTest.java:69-71 | The message of that error is `Path [root.laptop.d1.s1] already exist`. |
| `Paths.NotLegalMessage` | server/src/test/java/org/apache/iotdb/db/metadata/MTreeTest.java:91-97 | The message for `aa.bb.cc` is `aa.bb.cc is not a legal path`. |
| `MTreeObject.MTree.SetStorageGroup` | server/src/test/java/org/apache/iotdb/db/metadata/MTreeTest.java:204-231 | Either throws the error `MTreeUpdate.SetStorageGroup` gives and leaves the tree alone, or installs the tree it computes. The tree stays valid. |
| `MTreeUpdate.SetStorageGroupSpec` | server/src/test/java/org/apache/iotdb/db/metadata/MTreeTest.java:204-231 | A path outside the root, or the root alone, is not legal. Otherwise setStorageGroup succeeds exactly when nothing exists at the path and only plain levels lie strictly on the way. A failure is "already exist" and names the blocking node. Success keeps the tree valid. |
| `MTreeUpdate.SetStorageGroupKinds` | server/src/test/java/org/apache/iotdb/db/metadata/MTreeTest.java:209-213 | After setStorageGroup:<br>• the path is a storage group;<br>• its ancestors that did not exist are now plain levels;<br>• every other path is unchanged. |
| `MTreeUpdate.AddGroupSucceeds` | server/src/test/java/org/apache/iotdb/db/metadata/MTreeTest.java:220-231 | Marking below a node succeeds exactly when no prefix of the rest blocks it. A block is a storage group or measurement strictly on the way, or any node at the path. |
| `MTreeUpdate.AddGroupBlocked` | server/src/test/java/org/apache/iotdb/db/metadata/MTreeTest.java:225-231 | A failing mark is "already exist". It names a path that starts with the walked prefix and ends at a blocking node. |
| `MTreeUpdate.AddGroupKinds` | server/src/test/java/org/apache/iotdb/db/metadata/MTreeTest.java:209-213 | The kinds after a mark, relative to any node on the way. |
| `MTreeUpdate.AddGroupWellFormed` | server/src/test/java/org/apache/iotdb/db/metadata/MTreeTest.java:204-231 | Marking a storage group keeps the tree well-formed, so no storage group ends up above or below another. |
| `MTreeExamples.TwoGroups` | server/src/test/java/org/apache/iotdb/db/metadata/MTreeTest.java:207-224 | Setting `root.laptop.d1` and then `root.laptop.d2` on a new tree gives `root.laptop` with the two storage groups, in that order. |
| `MTreeExamples.TwoGroupsQueries` | server/src/test/java/org/apache/iotdb/db/metadata/MTreeTest.java:210-230 | On that tree:<br>• setting `root.laptop` fails with "already exist" on `root.laptop`;<br>• `root.laptop.d1.s1` does not exist, yet it lies under a storage group, namely `root.laptop.d1`;<br>• the storage groups reached from `root.laptop` are d1 then d2. |
| `Paths.GroupExistsMessage` | server/src/test/java/org/apache/iotdb/db/metadata/MTreeTest.java:228-230 | The message is `Path [root.laptop] already exist`. |
| `MTreeObject.MTree.DeletePath` | server/src/test/java/org/apache/iotdb/db/metadata/MTreeTest.java:259-276 | Either throws the error `MTreeUpdate.DeletePath` gives and leaves the tree alone, or installs the tree it computes. The tree stays valid. |
| `MTreeUpdate.DeletePathSpec` | server/src/test/java/org/apache/iotdb/db/metadata/MTreeTest.java:259-271 | A path outside the root, or the root alone, is not legal. Otherwise deletePath succeeds exactly when a node exists at the path, and fails with not-found naming the path when none does. Success keeps the tree valid. |
| `MTreeUpdate.DeletePathKinds` | server/src/test/java/org/apache/iotdb/db/metadata/MTreeTest.java:265-276 | After deletePath:<br>• the path and everything below it are gone;<br>• paths off the way and the root are unchanged;<br>• a storage group ancestor is always kept;<br>• any other ancestor is gone exactly when it is prunable (`PrunableAt`), and kept as it was otherwise. |
| `MTreeUpdate.DeletePathPrunes` | server/src/test/java/org/apache/iotdb/db/metadata/MTreeTest.java:272-276 | An ancestor below the root is gone after deletePath exactly when both hold:<br>• neither it nor any level between it and the deleted node is a storage group;<br>• every node at or below it lay on the way to the deleted path or under it.<br>So `root.laptop` survives while `root.laptop.d2` exists. |
| `MTreeUpdate.DeleteOutcome` | server/src/test/java/org/apache/iotdb/db/metadata/MTreeTest.java:259-271 | Deleting below a node succeeds exactly when the node to delete exists. Otherwise it reports the full path as not found. |
| `MTreeUpdate.DeleteKinds` | server/src/test/java/org/apache/iotdb/db/metadata/MTreeTest.java:265-276 | The kinds after a deletion, relative to any node on the way, including the pruning rule as an equivalence. |
| `MTreeUpdate.DeletePruned` | server/src/test/java/org/apache/iotdb/db/metadata/MTreeTest.java:272-276 | Relative to any node on the way, a non-empty strict prefix of the rest is gone exactly when it is `Prunable`. |
| `MTreeUpdate.DeleteWellFormed` | server/src/test/java/org/apache/iotdb/db/metadata/MTreeTest.java:259-276 | Deletion keeps the tree well-formed and creates no storage group. |
| `MTreeObject.MTree.IsPathExist` | server/src/test/java/org/apache/iotdb/db/metadata/MTreeTest.java:76-90 | Answers, without changing the tree, whether a node exists at the path. |
| `MTreeQuery.ExistingPathHasAncestors` | server/src/test/java/org/apache/iotdb/db/metadata/MTreeTest.java:88-89 | Every non-empty prefix of an existing path exists. |
| `MTreeObject.MTree.CheckStorageGroup` | server/src/test/java/org/apache/iotdb/db/metadata/MTreeTest.java:279-301 | Answers, without changing the tree, whether the node exactly at the path is a storage group. |
| `MTreeQuery.CheckStorageGroupIsExact` | server/src/test/java/org/apache/iotdb/db/metadata/MTreeTest.java:284-291 | In a valid tree with a storage group g, checkStorageGroup is false for the root, for every ancestor of g and for every path below g. |
| `MNodes.StorageGroupsDoNotNest` | server/src/test/java/org/apache/iotdb/db/metadata/MTreeTest.java:288-291 | In a well-formed tree no storage group lies below another. |
| `MNodes.NothingBelowMeasurement` | server/src/test/java/org/apache/iotdb/db/metadata/MTreeTest.java:64-71 | In a well-formed tree nothing lies below a measurement. |
| `MTreeObject.MTree.CheckStorageGroupByPath` | server/src/test/java/org/apache/iotdb/db/metadata/MTreeTest.java:209-215 | True exactly when some non-empty prefix of the path, the path included, is a storage group. It holds for `root.laptop.d1.s1` before that measurement exists. |
| `MTreeQuery.CheckStorageGroupByPathIff` | server/src/test/java/org/apache/iotdb/db/metadata/MTreeTest.java:209-215 | The same equivalence, for the query function. |
| `MTreeQuery.GroupPrefixLengthIsFirst` | server/src/test/java/org/apache/iotdb/db/metadata/MTreeTest.java:209-215 | The prefix length found is that of the shortest prefix that is a storage group. When none is found, no prefix is one. |
| `MTreeObject.MTree.GetStorageGroupNameByPath` | server/src/test/java/org/apache/iotdb/db/metadata/MTreeTest.java:238-251 | On success, returns a prefix of the path that is a storage group. On failure, the error is not-found naming the path. |
| `MTreeQuery.GetStorageGroupNameByPathSpec` | server/src/test/java/org/apache/iotdb/db/metadata/MTreeTest.java:238-251 | In a valid tree, a returned storage group is the only prefix of the path that is a storage group. Not-found is returned exactly when no prefix of the path is a storage group. |
| `MTreeObject.MTree.GetAllStorageGroupByPath` | server/src/test/java/org/apache/iotdb/db/metadata/MTreeTest.java:303-356 | Fails exactly when the pattern does not start with the root name. |
| `MTreeQuery.GetAllStorageGroupByPathSpec` | server/src/test/java/org/apache/iotdb/db/metadata/MTreeTest.java:303-356 | The list holds exactly the storage groups that agree with the pattern on every segment both have. These are the groups at or below the pattern and the one above it. |
| `MTreeQuery.GetAllStorageGroupByPathOrder` | server/src/test/java/org/apache/iotdb/db/metadata/MTreeTest.java:316-323 | The list is the tree's storage groups in depth-first order, children in insertion order (`AllGroups`), filtered by the pattern. No group appears twice. |
| `MTreeQuery.AllGroupsSpec` | server/src/test/java/org/apache/iotdb/db/metadata/MTreeTest.java:279-301 | That depth-first listing holds exactly the paths checkStorageGroup accepts. |
| `MTreeQuery.CollectGroupsFilters` | server/src/test/java/org/apache/iotdb/db/metadata/MTreeTest.java:316-323 | The walk from any node lists the groups below it in depth-first order, filtered by the pattern. |
| `MTreeQuery.Overlapping` | server/src/test/java/org/apache/iotdb/db/metadata/MTreeTest.java:316-323 | Filtering keeps exactly the groups that agree with the pattern on every segment both have. |
| `MTreeQuery.CollectGroupsSpec` | server/src/test/java/org/apache/iotdb/db/metadata/MTreeTest.java:316-323 | The same membership rule, relative to any node of the walk. |
| `MTreeQuery.CollectGroupsUnder` | server/src/test/java/org/apache/iotdb/db/metadata/MTreeTest.java:316-323 | Every group listed from a node lies at or below it. |
| `MTreeObject.MTree.GetAllPath` | server/src/test/java/org/apache/iotdb/db/metadata/MTreeTest.java:133-143 | Fails exactly when the pattern does not start with the root name. |
| `MTreeQuery.GetAllPathSpec` | server/src/test/java/org/apache/iotdb/db/metadata/MTreeTest.java:133-143 | The map files q under key g exactly when:<br>• q is a measurement;<br>• q matches the pattern segment by segment, with `*` matching any one segment;<br>• g is the storage group q lies under, or the null key when there is none.<br>Every key holds at least one path. |
| `MTreeQuery.MatchLeavesSpec` | server/src/test/java/org/apache/iotdb/db/metadata/MTreeTest.java:133-143 | The listing rule, relative to any node of the walk. |
| `MTreeQuery.GroupSpec` | server/src/test/java/org/apache/iotdb/db/metadata/MTreeTest.java:135-139 | Grouping a list of (group, path) pairs keys each path by its group, drops nothing and invents nothing. Every key has a non-empty list. |
| `MTreeQuery.SelectSpec` | server/src/test/java/org/apache/iotdb/db/metadata/MTreeTest.java:135-139 | The paths selected for a key are exactly those paired with it. |
| `MTreeQuery.Group` | server/src/test/java/org/apache/iotdb/db/metadata/MTreeTest.java:135-139 | The map has a key exactly when some pair carries it. The list under the key holds the paths with that key, in order. |
| `MTreeMerge.Merge` | server/src/test/java/org/apache/iotdb/db/metadata/MTreeTest.java:193-197 | The union of two trees has the first tree's name. It keeps the first tree's children, in order, ahead of the second tree's new ones. |
| `MTreeMerge.MergeEach` | server/src/test/java/org/apache/iotdb/db/metadata/MTreeTest.java:193-197 | Merging the children of one node with those of another keeps the first list's length and names. |
| `MTreeMerge.Missing` | server/src/test/java/org/apache/iotdb/db/metadata/MTreeTest.java:193-197 | The children only the second tree has are taken from it, and none of them is named in the first. |
| `MTreeMerge.MergeKinds` | server/src/test/java/org/apache/iotdb/db/metadata/MTreeTest.java:193-197 | The union has a node exactly where either input has one. Its kind joins the two: a storage group stays one and a measurement keeps its schema. |
| `MTreeMerge.MergedChild` | server/src/test/java/org/apache/iotdb/db/metadata/MTreeTest.java:193-197 | A child of the union is the merge of both inputs' children of that name, or the one that exists. |
| `MTreeMerge.MergeWellFormed` | server/src/test/java/org/apache/iotdb/db/metadata/MTreeTest.java:193-197 | Merging two well-formed trees gives a well-formed tree. Every storage group in it comes from one of the inputs. |
| `MTreeMerge.MergeFailureNamesClash` | server/src/test/java/org/apache/iotdb/db/metadata/MTreeTest.java:193-197 | A failed merge names a path at which both trees have nodes that cannot be merged. |
| `MTreeMerge.ClashFails` | server/src/test/java/org/apache/iotdb/db/metadata/MTreeTest.java:193-197 | Two nodes that cannot be merged, anywhere in the trees, make the merge fail. |
| `MTreeMerge.MergeSucceedsIff` | server/src/test/java/org/apache/iotdb/db/metadata/MTreeTest.java:193-197 | Two trees merge exactly when they clash nowhere. |
| `MTreeMerge.MergeCommutes` | server/src/test/java/org/apache/iotdb/db/metadata/MTreeTest.java:193-197 | Merging in the other order succeeds in the same cases and gives the same kind at every path. |
| `MTreeMerge.MergeSelf` | server/src/test/java/org/apache/iotdb/db/metadata/MTreeTest.java:193-197 | Merging a well-formed tree with itself gives back the tree. |
| `MTreeMerge.CombineIntoHolds` | server/src/test/java/org/apache/iotdb/db/metadata/MTreeTest.java:193-197 | A successful fold holds a node exactly where the first tree or one of the others does. |
| `MTreeMerge.CombineIntoKinds` | server/src/test/java/org/apache/iotdb/db/metadata/MTreeTest.java:193-197 | After a successful fold, a path is a storage group or a given measurement exactly when it is one in some input. |
| `MTreeMerge.CombineIntoWellFormed` | server/src/test/java/org/apache/iotdb/db/metadata/MTreeTest.java:193-197 | A successful fold of valid trees is a valid tree under the first tree's root name. |
| `MTreeMerge.CombineSpec` | server/src/test/java/org/apache/iotdb/db/metadata/MTreeTest.java:151-202 | combineMetadataInStrings of valid trees, when it succeeds:<br>• is a valid tree under the first tree's root name;<br>• holds a node exactly where some input does;<br>• has a storage group or a given measurement at a path exactly when some input has it there. |
| `MTreeMerge.ClashKinds` | server/src/test/java/org/apache/iotdb/db/metadata/MTreeTest.java:193-197 | Two trees clash at a path exactly when both have a node there and either the kinds cannot be joined or one is a storage group with a storage group below the other. |
| `MTreeMerge.MergeClashes` | server/src/test/java/org/apache/iotdb/db/metadata/MTreeTest.java:151-202 | A successful union clashes with a third tree at a path exactly when one of its two inputs does. |
| `MTreeMerge.CombineIntoSucceedsIff` | server/src/test/java/org/apache/iotdb/db/metadata/MTreeTest.java:151-202 | Folding a list of trees into an accumulator succeeds exactly when the accumulator clashes with none of them and no two of them clash. |
| `MTreeMerge.CombineSucceedsIff` | server/src/test/java/org/apache/iotdb/db/metadata/MTreeTest.java:151-202 | combineMetadataInStrings of valid trees under one root name succeeds exactly when no two inputs clash at any path. |
| `MTreeExamples.CombineFirstStep` | server/src/test/java/org/apache/iotdb/db/metadata/MTreeTest.java:177-187 | Merging the tree holding `root.a.d0` with the one holding `root.a.d1` gives `root.a` with d0 then d1. |
| `MTreeExamples.CombineSecondStep` | server/src/test/java/org/apache/iotdb/db/metadata/MTreeTest.java:189-197 | Merging that with the tree holding `root.a.b.d0` adds `b` after them. |
| `MTreeExamples.CombineThreeGroups` | server/src/test/java/org/apache/iotdb/db/metadata/MTreeTest.java:151-202 | Combining the three trees of the test gives the tree built in one piece: `root.a` with d0, d1 and b.d0, in that order. |
| `MTreeExamples.MatchUnderA` | server/src/test/java/org/apache/iotdb/db/metadata/MTreeTest.java:133-139 | Under `root.a` of the test's tree, the pattern `*.s0` lists `root.a.d0.s0` then `root.a.d1.s0`, each with its storage group. |
| `MTreeExamples.MatchTwoUnderA` | server/src/test/java/org/apache/iotdb/db/metadata/MTreeTest.java:133-143 | Under `root.a`, the pattern `*.*.s0` lists only `root.a.b.d0.s0`, with its storage group. |
| `MTreeExamples.AddAndQueryPaths` | server/src/test/java/org/apache/iotdb/db/metadata/MTreeTest.java:133-139 | getAllPath of `root.a.*.s0` files `root.a.d0.s0` under `root.a.d0` and `root.a.d1.s0` under `root.a.d1`. |
| `MTreeExamples.AddAndQueryNestedPaths` | server/src/test/java/org/apache/iotdb/db/metadata/MTreeTest.java:133-143 | getAllPath of `root.a.*.*.s0` files only `root.a.b.d0.s0`, under `root.a.b.d0`. |
| `TsTypes.TypeOfCode` | server/src/main/java/org/apache/iotdb/db/query/externalsort/serialize/impl/FixLengthIExternalSortFileDeserializer.java:80-82 | A type code names a type exactly when it is one of the six the reader handles, and then the type's code is that code. |
| `TsTypes.TypeCodeRoundTrip` | server/src/main/java/org/apache/iotdb/db/query/externalsort/serialize/impl/FixLengthIExternalSortFileDeserializer.java:80-107 | The code of every type decodes back to the type, so each type reaches its reader. |
| `SpillFormat.Unsigned` | server/src/main/java/org/apache/iotdb/db/query/externalsort/serialize/impl/FixLengthIExternalSortFileDeserializer.java:124 | The value of n big-endian bytes is below 256 to the power n. |
| `SpillFormat.Signed` | server/src/main/java/org/apache/iotdb/db/query/externalsort/serialize/impl/FixLengthIExternalSortFileDeserializer.java:124 | The two's-complement value of n bytes lies in the signed n-byte range. It is negative exactly when the top bit of the first byte is set. |
| `SpillFormat.ToBytes` | server/src/main/java/org/apache/iotdb/db/query/externalsort/serialize/impl/FixLengthIExternalSortFileDeserializer.java:124 | Encodes a value in range into n bytes whose unsigned value it is. |
| `SpillFormat.FromSigned` | server/src/main/java/org/apache/iotdb/db/query/externalsort/serialize/impl/FixLengthIExternalSortFileDeserializer.java:124 | Encodes a signed value in range into n bytes whose two's-complement value it is. |
| `SpillFormat.BytesRoundTrip` | server/src/main/java/org/apache/iotdb/db/query/externalsort/serialize/impl/FixLengthIExternalSortFileDeserializer.java:124 | Encoding the unsigned value of some bytes gives back the same bytes. |
| `SpillFormat.SignedRoundTrip` | server/src/main/java/org/apache/iotdb/db/query/externalsort/serialize/impl/FixLengthIExternalSortFileDeserializer.java:139-140 | Decoding the encoding of a signed value gives back the value. |
| `SpillFormat.SignedBytesRoundTrip` | server/src/main/java/org/apache/iotdb/db/query/externalsort/serialize/impl/FixLengthIExternalSortFileDeserializer.java:139-140 | Encoding the signed value of some bytes gives back the same bytes. |
| `SpillFormat.UnsignedTop` | server/src/main/java/org/apache/iotdb/db/query/externalsort/serialize/impl/FixLengthIExternalSortFileDeserializer.java:139-140 | The first byte has its top bit set exactly when the unsigned value reaches half the range. |
| `SpillFormat.FixedWidth` | server/src/main/java/org/apache/iotdb/db/query/externalsort/serialize/impl/FixLengthIExternalSortFileDeserializer.java:114-187 | Each fixed-width type's value takes 1, 4 or 8 bytes. |
| `SpillFormat.Header` | server/src/main/java/org/apache/iotdb/db/query/externalsort/serialize/impl/FixLengthIExternalSortFileDeserializer.java:80-82 | The header is the 2-byte signed code at the start of the file:<br>• a file shorter than 2 bytes is a short header;<br>• a code naming a type gives that type;<br>• any other code is reported as unknown. |
| `SpillFormat.DecodeRecord` | server/src/main/java/org/apache/iotdb/db/query/externalsort/serialize/impl/FixLengthIExternalSortFileDeserializer.java:114-206 | A whole record ends after its start and within the file. |
| `SpillFormat.RecordFraming` | server/src/main/java/org/apache/iotdb/db/query/externalsort/serialize/impl/FixLengthIExternalSortFileDeserializer.java:114-206 | A fixed-width record is the 8-byte big-endian timestamp followed by the type's value bytes. A TEXT record is the timestamp, a 4-byte length and then exactly that many bytes, which are the value. |
| `SpillFormat.FixedRecordTruncated` | server/src/main/java/org/apache/iotdb/db/query/externalsort/serialize/impl/FixLengthIExternalSortFileDeserializer.java:114-187 | A fixed-width record is cut short exactly when fewer than 8 plus the value width bytes remain. |
| `SpillFormat.RecordIgnoresSuffix` | server/src/main/java/org/apache/iotdb/db/query/externalsort/serialize/impl/FixLengthIExternalSortFileDeserializer.java:114-206 | A whole record reads the same whatever follows it. |
| `SpillFormat.EncodeValue` | server/src/main/java/org/apache/iotdb/db/query/externalsort/serialize/impl/FixLengthIExternalSortFileDeserializer.java:114-206 | A fixed-width value takes its type's width. A text value takes the 4 length bytes plus its length. |
| `SpillFormat.RecordRoundTrip` | server/src/main/java/org/apache/iotdb/db/query/externalsort/serialize/impl/FixLengthIExternalSortFileDeserializer.java:114-206 | A record written for a pair at any position in a file reads back as that pair, ending right after the record. |
| `SpillFormat.BodyRoundTrip` | server/src/main/java/org/apache/iotdb/db/query/externalsort/serialize/impl/FixLengthIExternalSortFileDeserializer.java:55-62 | The records written for a list of pairs read back as the list. |
| `SpillFormat.FileRoundTrip` | server/src/main/java/org/apache/iotdb/db/query/externalsort/serialize/impl/FixLengthIExternalSortFileDeserializer.java:47-62 | A file written as header plus records reads back as its type and its pairs. |
| `SpillFormat.RecordEncodes` | server/src/main/java/org/apache/iotdb/db/query/externalsort/serialize/impl/FixLengthIExternalSortFileDeserializer.java:114-206 | Every record that reads back is exactly the encoding of the pair it yields. |
| `SpillFormat.BodyEncodes` | server/src/main/java/org/apache/iotdb/db/query/externalsort/serialize/impl/FixLengthIExternalSortFileDeserializer.java:55-62 | A body that reads back as a list of pairs is exactly their encoding. |
| `SpillFormat.FileEncodes` | server/src/main/java/org/apache/iotdb/db/query/externalsort/serialize/impl/FixLengthIExternalSortFileDeserializer.java:47-62 | A file that reads back is exactly the file written for its type and pairs. |
| `SpillReader.ByteStream.constructor` | server/src/main/java/org/apache/iotdb/db/query/externalsort/serialize/impl/FixLengthIExternalSortFileDeserializer.java:49 | The stream starts at the first byte of the file. |
| `SpillReader.ByteStream.Available` | server/src/main/java/org/apache/iotdb/db/query/externalsort/serialize/impl/FixLengthIExternalSortFileDeserializer.java:56 | The number of unread bytes. |
| `SpillReader.ByteStream.Read` | server/src/main/java/org/apache/iotdb/db/query/externalsort/serialize/impl/FixLengthIExternalSortFileDeserializer.java:122-123 | Fills the front of the buffer with the next bytes of the file and advances the cursor past them. It copies as many bytes as the buffer or the file allows and leaves the rest of the buffer as it was. It returns the count, 0 for an empty buffer, or -1 at the end of the file. |
| `SpillReader.RecordReader.constructor` | server/src/main/java/org/apache/iotdb/db/query/externalsort/serialize/impl/FixLengthIExternalSortFileDeserializer.java:114-194 | A reader has fresh 8-byte timestamp and 4-byte length buffers and a value buffer of its type's width. |
| `SpillReader.RecordReader.Read` | server/src/main/java/org/apache/iotdb/db/query/externalsort/serialize/impl/FixLengthIExternalSortFileDeserializer.java:114-206 | Reading a record agrees with `DecodeRecord` at the cursor:<br>• a whole record yields its pair and leaves the cursor after it;<br>• a negative TEXT length fails as a negative array size after the 12 bytes read;<br>• a cut-short record leaves the cursor at the end of the file.<br>The fixed-width readers reuse their value buffer; the TEXT reader allocates a new one. |
| `SpillReader.Deserializer.constructor` | server/src/main/java/org/apache/iotdb/db/query/externalsort/serialize/impl/FixLengthIExternalSortFileDeserializer.java:47-52 | The deserializer holds the stream and the reader it is given. |
| `SpillReader.Deserializer.HasNext` | server/src/main/java/org/apache/iotdb/db/query/externalsort/serialize/impl/FixLengthIExternalSortFileDeserializer.java:54-57 | There is another record exactly when unread bytes remain. |
| `SpillReader.Deserializer.Next` | server/src/main/java/org/apache/iotdb/db/query/externalsort/serialize/impl/FixLengthIExternalSortFileDeserializer.java:59-62 | Reads the record at the cursor with the reader of the file's type, as `RecordReader.Read` states. |
| `SpillReader.ReadHeader` | server/src/main/java/org/apache/iotdb/db/query/externalsort/serialize/impl/FixLengthIExternalSortFileDeserializer.java:80-82 | Reading the header at the start of the stream gives what `Header` gives for the whole file. On success the cursor is past the 2 header bytes. |
| `SpillReader.Open` | server/src/main/java/org/apache/iotdb/db/query/externalsort/serialize/impl/FixLengthIExternalSortFileDeserializer.java:47-107 | Opening a file fails with the header's error, or gives a new deserializer:<br>• it is positioned right after the header;<br>• its reader is the one for the header's type. |

## Left out

- The MTree implementation, `MetaUtils` and `MNode` are not part of this model. Their behaviour is taken from the tests alone. Where the tests do not pin it down, the model chooses:
  - paths arrive already split into segments;
  - re-adding an identical measurement changes nothing;
  - adding a measurement over a node of another kind fails with "already exist";
  - a path that is only the root name is not legal.
- Path splitting and the "legal path" syntax of `MetaUtils` are not modelled. A path is a sequence of names, and "not legal" means only that it does not start with the root name or names only the root.
- Encodings, compressors and the properties map of a measurement are kept as opaque schema values. Only equality of schemas matters to the tree.
- combineMetadataInStrings works on the JSON text of the trees and compares the result by `toString()`. The model merges tree values instead and compares them structurally. The merge code is not shown. The model chooses to reject two inputs that disagree on a node rather than let one win, and it takes at least one input, because the source always reads the first.
- `MTreeMerge.CombineSucceedsIff` is stated for inputs that share the first tree's root name. Inputs with another root name never merge.
- The tree is held as one immutable value in a field of `MTreeObject.MTree`. In-place updates of shared `MNode` objects, parent links and aliasing between nodes are not modelled.
- `getAllPath` keys paths under no storage group by the null key of the Java map. Here that key is `None`.
- `SpillFormat.Header`: `TSDataType.deserialize` and `ReadWriteIOUtils.readShort` are not part of this model. The model assumes that:
  - a header shorter than two bytes is an error (`ShortHeader`);
  - the type codes are the positions 0 to 5 of BOOLEAN, INT32, INT64, FLOAT, DOUBLE, TEXT;
  - any other code is an error (`UnknownType`).
  With those codes, the default branch of `setReader` cannot be reached.
- Boolean, float, double and text values are kept as their raw bytes. `bytesToBool`, `bytesToFloat`, `bytesToDouble` and `bytesToString` are not part of this model. INT32 and INT64 values and all timestamps are decoded as big-endian two's complement, which is what `BytesUtils` is taken to do.
- `SpillReader.RecordReader.Read`: for a record cut short by the end of the file, the Java builds its value from whatever the reused buffers still hold. The model states only that the cursor ends at the end of the file and says nothing about the pair returned.
- `SpillReader.ByteStream.Read`: every read copies as many bytes as the buffer and the file allow. A `BufferedInputStream` may return fewer, and that is not modelled.
- `close()`, the deletion of the temporary file and `getTmpFilePath()` are file-system operations and are left out. The file's contents are a parameter of `SpillReader.Open`.
- The class comment of the deserializer describes the header as a 4-byte length and the type's name. The code reads a single 2-byte short, and the model follows the code.
