# fm-git branch-name tree model in Dafny

fm-git lays a feature-model hierarchy over the flat branch list of git. A branch such as
`_main/_feature/_root/feature1` is read as the qualified path `main/feature/root/feature1`.
Its first segment is an *area* and its second segment is the `feature` or `product` root.
The remaining segments are nested features or products; tags hang below any node. The
repository holds several iterations of this model side by side. This project models each
one separately, in the form it has in the source:

- **Qualified paths** (`qualified_path.dfy`): a path is a sequence of segments without
  `/`.
  - Encoding to a git branch puts `_` in front of every non-final segment and joins with
    `/`.
  - Decoding removes `*` and `_`, trims, and splits.
  - The path also offers slicing, concatenation and the string-level `starts_with`.
- **Role tree** (`role_tree.dfy`): the `Node` of `src/model/node.rs`.
  - Each node has a role and has-branch metadata, and its children are keyed by name.
  - Role rules decide which children a node admits.
  - `insert_node_path` creates missing nodes hop by hop and does not roll back on a role
    error.
  - `get_qualified_paths_by` collects descendant paths by category.
- **Node paths**: a non-empty chain of nodes from an area downwards, with `to`,
  `concretize`, the root helpers, tags and the has-branch split.
  - `node_path.dfy` models `src/model/node_path.rs`.
  - `legacy_node_path.dfy` models `src/git/model/node_path.rs`.
- **Older role iterations**:
  - `split_roles.dfy` covers the split-path roles of `src/git/model/{feature,area,product,root}.rs`.
  - `path_roles.dfy` covers the qualified-path roles of `src/git/model/node_type.rs`.
  - `branch_node.dfy` covers the role-carrying node of `src/git/model/node.rs`.
- **Role-free name trees**:
  - `name_tree.dfy` covers `src/git/model/base.rs`.
  - `sym_feature_tree.dfy` covers `src/git/tree.rs`.
  - `tree_data_model.dfy` covers `src/git/model/tree.rs`.
- **Branch indexes**, which turn native branch lines into a tree plus an index:
  - `git_node.dfy` covers `src/git/node.rs`.
  - `git_model.dfy` covers `src/git/model.rs`, with its short-name map for typing
    `feature1` instead of `feature/root/feature1`.
- **Command-line helpers**:
  - path completion (`path_completion.dfy`);
  - conflict-pair enumeration and bucketing (`conflict.dfy`);
  - the argument attribution state machine of shell completion (`completion_helper.dfy`);
  - the command tree lookups (`command_defs.dfy`);
  - the `--name` editing check (`cli_util.dfy`).

`strings.dfy` holds the Rust `str` operations the model is built from: `split`, `join`,
`replace`, `trim` and `starts_with`. `wrappers.dfy` holds `Option` and `Result`.

**Form of the model:**
- Trees are values, and an insertion returns the new tree.
- The aggregates the source updates in place are classes whose methods reassign their
  fields: both `BranchDataModel`s, `TreeDataModel` and `ConflictStatistics`.
- The loops of the source are methods with loop invariants, proved equal to a
  specification function:
  - `NodePath::to`, `get_qualified_path`, `SymNode::get_path` and `From<Vec>`;
  - the conflict pair enumeration and `ConflictStatistics::from`;
  - the `currently_editing` state machine;
  - the map-building loop of `get_qualified_paths_by`.
- A `panic!`, `unreachable!` or failing `unwrap` that real input can reach is an `Err`
  value.
- A `usize` underflow that the callers never reach is a `requires`.

**Where the design text and the code differ, the model follows the code:**
- `starts_with` compares the joined strings, so `foo/abc` starts with `foo/a`.
- Encoding prefixes `feature` with `_` like any other non-final segment.
- The Area rule of `src/model/node.rs` tests `starts_with("feature")`. The older rules test
  equality.
- A role error in `insert_node_path` keeps the nodes created before it.
- The older role-carrying node gives newly created intermediate nodes the branch too.

## Model

| member | source | states |
|---|---|---|
| QualifiedPaths.Push | src/git/model/qualified_path.rs:77-84 | the pushed string is split on `/` and appended: the old segments stay in front, the length grows by one more than the number of `/`, and the new segments join back to the pushed string |
| QualifiedPaths.PushSegment | src/git/model/qualified_path.rs:77-84 | pushing a string without `/` appends exactly that one segment |
| QualifiedPaths.FromString | src/git/model/qualified_path.rs:10-17 | `From<String>` always yields at least one segment (its exact result is fixed by `Get` and `RoundTrip`) |
| QualifiedPaths.FromStr | src/git/model/qualified_path.rs:18-24 | `From<&str>` only splits: at least one segment, and the segments join back to the input unchanged |
| QualifiedPaths.FromSegments | src/git/model/qualified_path.rs:25-33 | `From<Vec>` keeps a list of `/`-free segments as it is |
| QualifiedPaths.FromVec | src/git/model/qualified_path.rs:25-33 | the push loop builds the same path as the segment-by-segment definition |
| QualifiedPaths.TrimN | src/git/model/qualified_path.rs:85-87 | `trim_n(l, r)` is the slice of segments from l to r; it needs l ≤ r ≤ len |
| QualifiedPaths.TrimNLeft | src/git/model/qualified_path.rs:88-90 | drops the first n segments; the dropped segments followed by the result give back the path |
| QualifiedPaths.TrimNRight | src/git/model/qualified_path.rs:91-93 | keeps the first n segments: n segments long and a prefix of the path |
| QualifiedPaths.Add | src/git/model/qualified_path.rs:43-51 | `a + b` is segment concatenation: the lengths add, the first `len a` segments are a and the rest are b |
| QualifiedPaths.First | src/git/model/qualified_path.rs:94-96 | Some exactly for a non-empty path, and then its first segment |
| QualifiedPaths.Last | src/git/model/qualified_path.rs:97-99 | Some exactly for a non-empty path, and then its last segment |
| QualifiedPaths.Get | src/git/model/qualified_path.rs:106-108 | Some exactly for an index in range; the segment is re-read through `From<String>`, so its `*` and `_` are removed and it is trimmed |
| QualifiedPaths.EncodingIsJoin | src/git/model/qualified_path.rs:61-73 | `to_git_branch` joins the escaped non-final segments and the bare last segment with `/` |
| QualifiedPaths.EncodedSegments | src/git/model/qualified_path.rs:61-73 | a one-segment path encodes to the bare segment; splitting any encoding on `/` gives back the escaped segments and the last one |
| QualifiedPaths.RoundTrip | src/git/model/qualified_path.rs:10-73 | decoding the encoding with `From<String>` gives back every non-empty path whose segments hold no `/`, `_`, `*` and no edge whitespace |
| QualifiedPaths.StartsWithLength | src/git/model/qualified_path.rs:109-111 | when `starts_with` holds, the prefix is no longer than the path; the one exception is the empty path and the prefix `[""]` |
| QualifiedPaths.SegmentPrefixStartsWith | src/git/model/qualified_path.rs:109-111 | a segment-wise prefix always passes `starts_with` |
| QualifiedPaths.StartsWithIsNotSegmentwise | src/git/model/qualified_path.rs:109-111 | `foo/abc` starts with `foo/a` although `[foo, a]` is no segment-wise prefix of `[foo, abc]` |
| NameTree.New | src/git/model/base.rs:26-31 | a new node has the given name and no children |
| NameTree.ChildIndex | src/git/model/base.rs:14-19 | the position of the first child with the name; None exactly when no child has it |
| NameTree.GetChild | src/git/model/base.rs:14-16 | Some exactly when a child has the name, and then a child of that name |
| NameTree.AddChild | src/git/model/base.rs:20-22 | the child is appended after the existing children |
| NameTree.InsertPath | src/git/model/base.rs:36-49 | inserting below a node keeps that node's name |
| NameTree.InsertEmptyPath | src/git/model/base.rs:36-39 | inserting the empty path changes nothing |
| NameTree.InsertThenWalk | src/git/model/base.rs:36-49 | after inserting a path, walking it by child names succeeds |
| NameTree.InsertTouchesOneChild | src/git/model/base.rs:41-48 | a missing first segment appends a new child built from the rest of the path; an existing one is reused in place; every sibling is untouched |
| NameTree.InsertKeepsNamesUnique | src/git/model/base.rs:41-46 | child names stay pairwise distinct at every level |
| NameTree.InsertIdempotent | src/git/model/base.rs:36-49 | inserting the same path a second time leaves the tree unchanged |
| NameTree.InsertKeepsPath | src/git/model/base.rs:36-49 | every path that could be walked before an insertion can still be walked after it |
| SymFeatureTree.AddChildNamed | src/git/tree.rs:13-15 | a fresh childless node with the name is appended after the existing children |
| SymFeatureTree.AddChildrenRecursive | src/git/tree.rs:22-35 | the recursive append-then-look-up-again builds exactly the tree of `NameTree.InsertPath`, so an empty path is a no-op and insertion is idempotent |
| SymFeatureTree.AddedPathsAreReachable | src/git/tree.rs:19-35 | after any sequence of insertions, names stay unique and every inserted path can be walked |
| TreeDataModel.FeaturePathPrefix | src/git/model/tree.rs:17-19 | the feature path prefix is `feature` followed by `/` |
| TreeDataModel.ProductPathPrefix | src/git/model/tree.rs:20-22 | the product path prefix is `product` followed by `/` |
| TreeDataModel.TransformToQualifiedPath | src/git/model/tree.rs:23-25 | the qualified form holds no `*` and no `_`, and only characters of the input |
| TreeDataModel.Converted | src/git/model/tree.rs:33-34 | the converted line holds no `*` and no `_` |
| TreeDataModel.BranchSegments | src/git/model/tree.rs:33-36 | the split line always has at least one segment |
| TreeDataModel.TreeDataModel.constructor | src/git/model/tree.rs:27-31 | a new model is a childless root called `""` |
| TreeDataModel.TreeDataModel.InsertFromGitNativeBranch | src/git/model/tree.rs:32-37 | the tree becomes the old tree with the line's `/`-split qualified form inserted |
| TreeDataModel.TreeDataModel.GetAreaNode | src/git/model/tree.rs:38-40 | a direct child of the root with that name: Some exactly when there is one |
| TreeDataModel.QualifiedForm | src/git/model/tree.rs:32-36 | the inserted form is: `*` removed, trimmed, `_` removed, then split on `/` |
| TreeDataModel.InsertedLineIsReachable | src/git/model/tree.rs:32-37 | after inserting a line, its segments can be walked from the root |
| TreeDataModel.BlankLineCreatesEmptyChild | src/git/model/tree.rs:33-36 | a line made of `*` and whitespace gives the single segment `""`, and the root gets a child called `""` |
| GitModel.StarStripped | src/git/model.rs:93 | the stored native form holds no `*` |
| GitModel.ConvertedBranch | src/git/model.rs:93-94 | the qualified form holds no `*`, no `_` and no edge whitespace |
| GitModel.LastSegment | src/git/model.rs:95-106 | the short name of a path holds no `/` |
| GitModel.InsertQualifiedPath | src/git/model.rs:34-50 | inserting below the root keeps the root's name |
| GitModel.RecordShortName | src/git/model.rs:105-119 | the short name becomes a key; its list grows by the path at the end; every other entry is unchanged |
| GitModel.LongNameOf | src/git/model.rs:148-155 | Some exactly when one path is recorded for the short name, and then that path |
| GitModel.UniqueShortNames | src/git/model.rs:134-147 | exactly the short names that have a long name |
| GitModel.BranchDataModel.constructor | src/git/model.rs:85-91 | a new model is the default branch's node with both maps empty |
| GitModel.BranchDataModel.InsertFromGitNativeBranch | src/git/model.rs:92-124 | the first native form wins in the path map: `GetGitBranch` of the converted path becomes the star-stripped branch only when that path was new, and stays as it was otherwise; every other path's `GetGitBranch` is unchanged; a path starting with `feature` is appended under its last segment; the tree gets the path unless it is the root's name; the index invariants are kept |
| GitModel.BranchDataModel.Record | src/git/model.rs:96-123 | the three updates of an insertion, given the already converted line |
| GitModel.BranchDataModel.GetFeatureRoot | src/git/model.rs:128-130 | Some exactly when the root has a child called `feature`, and then it is that child of the root |
| GitModel.BranchDataModel.GetProductRoot | src/git/model.rs:131-133 | Some exactly when the root has a child called `product`, and then it is that child of the root |
| GitModel.BranchDataModel.GetShortFeatureNames | src/git/model.rs:134-147 | exactly the short names with exactly one recorded path |
| GitModel.BranchDataModel.GetLongNameFromShort | src/git/model.rs:148-155 | Some exactly when the short name is known with exactly one path, and then it is that one recorded path |
| GitModel.BranchDataModel.GetGitBranch | src/git/model.rs:156-163 | Some exactly when that qualified path was inserted, and then it is the native branch stored for it, whose entry is keyed by that same path |
| GitModel.BranchDataModel.ExpandFromShort | src/git/model.rs:164-172 | a known qualified path comes back unchanged; otherwise the unique long name of the name with its `feature/` or `product/` prefix stripped, or None |
| GitModel.FirstRecordIsUnique | src/git/model.rs:105-119 | the first path recorded for a new short name is its long name |
| GitModel.RecordTwiceIsAmbiguous | src/git/model.rs:105-119 | inserting the same feature branch twice records it twice, and the short name then has no long name |
| GitModel.AmbiguityPersists | src/git/model.rs:148-155 | once a short name has two paths, no later recording gives it a long name |
| GitModel.LongNameIsIndexed | src/git/model.rs:96-119 | a long name is an indexed path that starts with `feature` and ends in the short name |
| GitModel.ExpansionIsIndexed | src/git/model.rs:164-172 | every expansion has a native branch |
| GitModel.ConvertedIgnoresMarkers | src/git/model.rs:93-94 | converting ignores `*` markers and is already trimmed |
| GitModel.IndexingKeepsShortNames | src/git/model.rs:96-104 | adding a path entry keeps every short-name list pointing into the path map |
| GitModel.RecordingKeepsShortNames | src/git/model.rs:105-119 | recording an indexed feature path under its last segment keeps the short-name map consistent |
| GitModel.InsertQualifiedKeepsNamesUnique | src/git/model.rs:34-50 | the older `SymNode` insertion keeps child names unique |
| GitModel.InsertedPathIsWalkable | src/git/model.rs:34-50 | after the older `SymNode` insertion, the `/`-split path can be walked |
| GitNode.New | src/git/node.rs:26-32 | a new node has the name, the branch data and no children |
| GitNode.ChildIndex | src/git/node.rs:58-63 | the position of the first child with the name; None exactly when no child has it |
| GitNode.GetChild | src/git/node.rs:58-60 | Some exactly when a child has the name, and then a child of that name |
| GitNode.AreaRoot | src/git/node.rs:171-178 | when found, the result is a child named `kind` of a child of the root named `area` |
| GitNode.AreaRootExactly | src/git/node.rs:171-178 | in a tree with unique child names, found exactly when the root has a child `area` with a child `kind` |
| GitNode.AreaRootAfterInsert | src/git/node.rs:171-178 | after inserting a path of at least two segments, the area root named by its first two segments is found |
| GitNode.AddChild | src/git/node.rs:45-47 | the child is pushed after the existing children |
| GitNode.UpdateBranchData | src/git/node.rs:42-44 | the branch data is replaced, also by None, and nothing else changes |
| GitNode.InsertFromSplitPath | src/git/node.rs:64-81 | insertion keeps the node's own name and branch data |
| GitNode.Descend | src/git/node.rs:85-99 | a successful walk yields one node per segment, carrying that segment's name |
| GitNode.GetPath | src/git/node.rs:85-99 | `get_path` walks the `/`-split query from the node: the nodes found, or None at the first missing segment |
| GitNode.Walk | src/git/node.rs:86-97 | the cursor loop of `get_path` computes the recursive walk |
| GitNode.Descendants | src/git/node.rs:51-57 | the corrected `iter_children_req`: every child of the node is listed, and so is everything listed below any child |
| GitNode.DescendantsExactly | src/git/node.rs:51-57 | a node is listed exactly when it is a child or listed below a child: nothing else appears |
| GitNode.DescendantsPreOrder | src/git/node.rs:51-57 | every listed node is followed at once by its own listing: each node comes before its own descendants |
| GitNode.BranchType | src/git/node.rs:196-206 | `feature/` as prefix gives Feature; otherwise `product/` gives Product; otherwise None |
| GitNode.BranchDataModel.constructor | src/git/node.rs:142-147 | an empty root called `""` and an empty index |
| GitNode.BranchDataModel.InsertFromGitNativeBranch | src/git/node.rs:151-167 | the qualified form enters the index only if absent, so the index stays duplicate-free; the tree gets it with the star-stripped trimmed line unless it is the root's name; afterwards `has_qualified_path` holds and `get_git_branch` returns that line |
| GitNode.BranchDataModel.Record | src/git/node.rs:154-166 | the two updates of an insertion, given the already converted line |
| GitNode.BranchDataModel.IterAllFeaturesWithBranchesOf | src/git/node.rs:179-183 | exactly the indexed paths starting with `area/feature` |
| GitNode.BranchDataModel.GetFeatureRootOf | src/git/node.rs:171-174 | when found, the `feature` child of the root's child `area`; in a valid model, found exactly when both children exist |
| GitNode.BranchDataModel.GetProductRootOf | src/git/node.rs:175-178 | when found, the `product` child of the root's child `area`; in a valid model, found exactly when both children exist |
| GitNode.InsertStep | src/git/node.rs:64-81 | one insertion hop: at the last segment only the named child's branch data changes, also to None, or a child with it is appended; at earlier segments a missing child is appended without branch data; other children are untouched |
| GitNode.InsertThenDescend | src/git/node.rs:64-84 | after `insert_from_split_path(p, d)` the walk along p succeeds and its last node carries d |
| GitNode.InsertKeepsNamesUnique | src/git/node.rs:61-79 | child names stay pairwise distinct at every level |
| GitNode.InsertQualifiedKeepsNamesUnique | src/git/node.rs:82-84 | `insert_qualified_path` keeps child names unique |
| GitNode.GetPathJoinsBack | src/git/node.rs:85-116 | the names of the nodes `get_path` finds, joined with `/`, give back the query |
| GitNode.InsertedBranchIsFound | src/git/node.rs:184-188 | after inserting a path with a native branch, `get_git_branch` of that path returns it |
| GitNode.InsertedBranchIsReached | src/git/node.rs:64-81 | the node a split path leads to after its insertion carries the inserted branch |
| GitNode.StripBranchTypeShortens | src/git/node.rs:207-217 | a branch without a recognised prefix is returned unchanged; one with a prefix gets strictly shorter |
| GitNode.StripFeaturePrefix | src/git/node.rs:207-217 | `feature/` followed by a rest that does not contain `feature/` gives back exactly that rest |
| GitNode.StripProductPrefix | src/git/node.rs:207-217 | `product/` followed by a rest that does not contain `product/` gives back exactly that rest |
| GitNode.StripRemovesEveryOccurrence | src/git/node.rs:207-217 | `replace` removes every occurrence, not only the leading one: `feature/a/feature/b` becomes `a/b` |
| GitNode.IterChildrenReqIsEmpty | src/git/node.rs:51-57 | as written, `iter_children_req` yields nothing for every tree |
| GitNode.DescendantsCount | src/git/node.rs:51-57 | the corrected listing holds size minus one entries, one per node below the root |
| GitNode.IterChildrenReqMissesChildren | src/git/node.rs:51-57 | a node with a child has that child among its descendants, but `iter_children_req` misses it |
| SplitRoles.FeatureRootChild | src/git/model/feature.rs:15-20 | a feature root's child is a Feature, and the joined path is appended at the end of the record |
| SplitRoles.StatelessChild | src/git/model/product.rs:5-17 | Feature gives Feature, ProductRoot and Product give Product, VirtualRoot gives Area (also `feature.rs:24-28` and `root.rs:4-8`) |
| SplitRoles.AreaChild | src/git/model/area.rs:5-16 | Ok exactly for a non-empty path whose first segment equals `feature` (an empty feature root) or `product` (a product root); anything else panics |
| SplitRoles.BuildChildFromPath | src/git/model/node.rs:64 | only an Area can fail; only a feature root's own state changes, by recording the joined path |
| SplitRoles.ChildRoleIgnoresPath | src/git/model/feature.rs:24-28 | every role except Area answers every path, the empty one included, with a role that does not depend on the path |
| SplitRoles.AreaInspectsFirstSegmentOnly | src/git/model/area.rs:7-13 | two paths with the same first segment get the same answer; the empty path panics |
| SplitRoles.AreaRuleIsEquality | src/git/model/area.rs:8-13 | `feature` and `product` are accepted, `features` and `featureA` are not |
| SplitRoles.FeatureRootRecordsInOrder | src/git/model/feature.rs:8-19 | a fresh feature root asked k times records the k joined paths in call order |
| SplitRoles.StatelessRolesStay | src/git/model/product.rs:4-17 | every role but a feature root is unchanged by any number of child requests |
| PathRoles.AreaChild | src/git/model/node_type.rs:54-65 | Ok exactly when the first segment equals `feature` (an empty feature root) or `product` (a product root); the empty path and any other first segment panic |
| PathRoles.BuildChildFromPath | src/git/model/node_type.rs:85-96 | the dispatch fails only for an Area; only a feature root changes, by recording the path |
| PathRoles.ChildRoles | src/git/model/node_type.rs:21-73 | Feature and FeatureRoot give Feature, Product and ProductRoot give Product, VirtualRoot gives Area, for every path |
| PathRoles.AreaChildByFirstSegment | src/git/model/node_type.rs:54-65 | under an Area, the answer is a feature root exactly for `feature` and a product root exactly for `product` |
| PathRoles.FeatureRootRecordsCalls | src/git/model/node_type.rs:12-26 | a fresh feature root records exactly the paths it was asked with, in call order |
| PathRoles.OnlyFeatureRootChanges | src/git/model/node_type.rs:28-73 | every other role is unchanged by any number of child requests |
| BranchNode.ChildIndex | src/git/model/node.rs:31-36 | the position of the child with the name; None exactly when there is none |
| BranchNode.GetChild | src/git/model/node.rs:34-36 | Some exactly when a child has the name, and then that child |
| BranchNode.AddChild | src/git/model/node.rs:27-30 | children are keyed by name: the new child is found under its name, replacing a same-name entry; other children stay |
| BranchNode.SetGitBranch | src/git/model/node.rs:56-58 | the native branch becomes the given one, and nothing else changes |
| BranchNode.InsertPath | src/git/model/node.rs:59-96 | insertion keeps the node's name |
| BranchNode.GetFromPath | src/git/model/node.rs:40-52 | None for the empty path; a node found is named by the last segment |
| BranchNode.GetFromPathStepwise | src/git/model/node.rs:40-52 | a longer path resolves exactly when its parent path resolves and that node has the last segment as a child |
| BranchNode.InsertThenGet | src/git/model/node.rs:59-96 | after a successful insertion of a non-empty path, `get_from_path` finds it with the given branch |
| BranchNode.FinalHop | src/git/model/node.rs:63-78 | at the last hop the asking node takes its updated role; an existing child only gets the branch; a missing one is created with the child role and the branch |
| BranchNode.IntermediateCarriesBranch | src/git/model/node.rs:79-94 | a missing intermediate node is created with the branch, not without one, and the child role as updated by the rest of the path |
| BranchNode.InsertKeepsKeys | src/git/model/node.rs:27-30 | insertion keeps every child stored under its own name, uniquely |
| BranchNode.RoleAskedBeforeLookup | src/git/model/node.rs:63-64 | an Area refuses an existing non-`feature`/`product` child too; a virtual root admits `area/feature/a` and refuses `area/docs/a` |
| RoleTree.BuildChildFromName | src/model/node.rs:46-67 | fails exactly for a Tag and for an Area given a name starting with neither `feature` nor `product` |
| RoleTree.ChildIndex | src/model/node.rs:178-180 | the position of the child with the name; None exactly when there is none |
| RoleTree.GetChild | src/model/node.rs:178-180 | Some exactly when a child has the name, and then that child |
| RoleTree.Put | src/model/node.rs:151-154 | a map insert: a same-name child is replaced in place, a new one appended, and the child is found under its name |
| RoleTree.UpdateMetadata | src/model/node.rs:113-115 | only the metadata changes |
| RoleTree.AddChild | src/model/node.rs:139-156 | fails exactly when the child is not a tag and the role rule refuses it; otherwise a childless node with the tag or ruled role and the metadata is put under its name |
| RoleTree.InsertNodePath | src/model/node.rs:184-213 | the node keeps its name and role, and its metadata when the path has one segment |
| RoleTree.AsQualifiedPath | src/model/node.rs:214-216 | a node's path has at least one segment |
| RoleTree.ChildRoleDescends | src/model/node.rs:46-66 | an admitted child is one level deeper (Feature and Product stay), stays on the feature or product side, and under an Area is a feature root exactly for a `feature…` name; never a Tag |
| RoleTree.NameIrrelevant | src/model/node.rs:46-52 | below every role but Area the name makes no difference; a Tag refuses every name |
| RoleTree.AreaRuleIsPrefix | src/model/node.rs:53-63 | `featureA` gives a feature root, `products` a product root, `docs` an error |
| RoleTree.Arrival | src/model/node.rs:193-199 | the last hop fails exactly when the child is missing and refused; otherwise the node there carries the metadata |
| RoleTree.Descent | src/model/node.rs:203-209 | an intermediate hop fails exactly when the child is missing and refused |
| RoleTree.FinalHop | src/model/node.rs:193-201 | a one-segment insertion puts the arrived child, or reports the error and leaves the node |
| RoleTree.InnerHop | src/model/node.rs:202-211 | a longer insertion descends into the existing or new child and puts the child back whatever the inner result |
| RoleTree.NoRollback | src/model/node.rs:202-210 | a missing intermediate node created at the first hop stays, with its ruled role, even when a deeper hop fails |
| RoleTree.InsertThenFind | src/model/node.rs:184-213 | after a successful insertion the path can be followed and its node carries the metadata |
| RoleTree.InsertKeepsKeys | src/model/node.rs:184-213 | children stay keyed by their names |
| RoleTree.InsertKeepsRoles | src/model/node.rs:184-213 | every child keeps a role its parent admits (or is a tag) |
| RoleTree.AddCategories | src/model/node.rs:230-241 | after one child, every category is a key of the result map |
| RoleTree.Extend | src/model/node.rs:243-245 | merging a child's result keeps the key set |
| RoleTree.PathsFrom | src/model/node.rs:227-247 | the categories become keys as soon as one child is visited |
| RoleTree.PathsFromStep | src/model/node.rs:228-245 | one outer iteration: file the child under its categories, then merge the child's own result |
| RoleTree.FileUnderCategories | src/model/node.rs:230-241 | the inner loop over the categories computes the filing of one child |
| RoleTree.MergeChild | src/model/node.rs:243-245 | the merge loop appends the child's lists to the existing keys |
| RoleTree.GetQualifiedPathsBy | src/model/node.rs:217-248 | the nested loops compute the recursive specification |
| RoleTree.CollectPaths | src/model/node.rs:227-247 | the loops over the children compute the recursive specification for any path-of-node function |
| RoleTree.AddCategoriesEffect | src/model/node.rs:230-241 | for distinct categories, a category's list grows by the child's path exactly when the predicate holds |
| RoleTree.ExtendEffect | src/model/node.rs:243-245 | a category's list grows by the child's list for that category |
| RoleTree.PathsFromEffect | src/model/node.rs:227-247 | a category's list is extended by the matching descendants, depth first |
| RoleTree.QualifiedPathsByCollects | src/model/node.rs:217-248 | for a node with children, the keys are the categories, and `result[t]` is `initial + path` of every descendant at any depth for which `predicate(t, node)` holds |
| RoleTree.QualifiedPathsOfLeaf | src/model/node.rs:227-247 | a node without children gives an empty map, with no keys |
| NodePaths.New | src/model/node_path.rs:69-74 | a new chain holds just the area node |
| NodePaths.Descend | src/model/node_path.rs:90-95 | a successful walk yields one node per segment |
| NodePaths.To | src/model/node_path.rs:90-95 | the push loop computes the walk from the tip node |
| NodePaths.ReachOne | src/model/node_path.rs:90-95 | `to` one segment appends that child of the tip, or is None when the child is missing |
| NodePaths.ToParentArea | src/model/node_path.rs:96-98 | the one-node chain of the first node |
| NodePaths.GetQualifiedPath | src/model/node_path.rs:99-105 | the loop builds the path of the chain's node names |
| NodePaths.ToRoot | src/model/node_path.rs:48-59 | None exactly when the tip lacks the child; a child of the wanted role is appended; any other role is the `unreachable!` error |
| NodePaths.ToFeatureRoot | src/model/node_path.rs:48-53 | as ToRoot for the `feature` child and the FeatureRoot role |
| NodePaths.ToProductRoot | src/model/node_path.rs:54-59 | as ToRoot for the `product` child and the ProductRoot role |
| NodePaths.TagPaths | src/model/node_path.rs:78-86 | exactly the paths of the direct children with role Tag |
| NodePaths.GetChildPathsByBranch | src/model/node_path.rs:106-118 | the collection by the has-branch flag over the categories true and false |
| NodePaths.ConcretizeKeepsChain | src/model/node_path.rs:28-38 | the variant chosen matches the tip's role and the chain is unchanged |
| NodePaths.DescendSteps | src/model/node_path.rs:90-95 | each appended node is the named child of the node before it |
| NodePaths.DescendFind | src/model/node_path.rs:90-95 | the walk succeeds exactly when the path can be followed, and then ends at the node found |
| NodePaths.ReachExtends | src/model/node_path.rs:90-98 | `to(p)` succeeds exactly when p can be followed; the chain grows by `len p`, keeps its old nodes and its parent area |
| NodePaths.PathOfPlainNames | src/model/node_path.rs:99-105 | for `/`-free names, the qualified path has one segment per node, its name |
| NodePaths.PathsToRoots | src/model/node_path.rs:42-47 | the root paths are the qualified path plus `feature` or `product`, without any tree lookup |
| NodePaths.BranchSplit | src/model/node_path.rs:106-118 | the true and false lists together hold every descendant path once |
| NodePaths.ChildPathsByBranch | src/model/node_path.rs:106-118 | every descendant is under exactly one key: true when it has a branch, false otherwise |
| LegacyNodePaths.New | src/git/model/node_path.rs:64-69 | a new chain holds just the area node |
| LegacyNodePaths.Descend | src/git/model/node_path.rs:73-78 | a successful walk yields one node per segment |
| LegacyNodePaths.To | src/git/model/node_path.rs:73-78 | the push loop computes the walk from the tip node |
| LegacyNodePaths.ReachOne | src/git/model/node_path.rs:73-78 | `to` one segment appends that child of the tip, or is None |
| LegacyNodePaths.ToParentArea | src/git/model/node_path.rs:79-81 | the one-node chain of the first node |
| LegacyNodePaths.GetQualifiedPath | src/git/model/node_path.rs:82-88 | the loop builds the path of the chain's node names |
| LegacyNodePaths.ToRoot | src/git/model/node_path.rs:43-54 | None exactly when the tip lacks the child; a root of the wanted kind is appended; anything else is the `unreachable!` error |
| LegacyNodePaths.ToFeatureRoot | src/git/model/node_path.rs:43-48 | as ToRoot for `feature` |
| LegacyNodePaths.ToProductRoot | src/git/model/node_path.rs:49-54 | as ToRoot for `product` |
| LegacyNodePaths.WithBranch | src/git/model/node_path.rs:89-96 | at most one entry per descendant |
| LegacyNodePaths.ConcretizeKeepsChain | src/git/model/node_path.rs:24-33 | the variant chosen matches the tip's role (there is no Tag) and the chain is unchanged |
| LegacyNodePaths.DescendGetFromPath | src/git/model/node_path.rs:73-78 | the walk succeeds exactly when `get_from_path` does, and ends at its node |
| LegacyNodePaths.ReachExtends | src/git/model/node_path.rs:73-81 | `to(p)` grows the chain by `len p`, keeps its old nodes and its parent area |
| LegacyNodePaths.PathsToRoots | src/git/model/node_path.rs:37-42 | the root paths are the qualified path plus `feature` or `product` |
| LegacyNodePaths.WithBranchExactly | src/git/model/node_path.rs:89-96 | a path is listed exactly when a descendant has it and its has-branch equals the flag |
| LegacyNodePaths.WithBranchSplits | src/git/model/node_path.rs:89-96 | the lists for true and false together hold every descendant path once |
| LegacyNodePaths.ChildPathsByBranch | src/git/model/node_path.rs:89-96 | `get_child_paths_by_branch(flag)` lists exactly the descendants whose has-branch equals the flag, and the two flags split them |
| Conflict.Row | src/git/conflict.rs:103-105 | the inner loop pairs index i with every later index, in order |
| Conflict.IndexPairs | src/git/conflict.rs:102-106 | every pair has its first index below its second |
| Conflict.Select | src/git/conflict.rs:104 | each index pair becomes the pair of those paths |
| Conflict.FeatureCombinations | src/git/conflict.rs:101-106 | the nested loops build exactly the specified pair list |
| Conflict.IndexPairsCount | src/git/conflict.rs:101-106 | there are n(2k−n−1)/2 index pairs after n outer iterations |
| Conflict.IndexPairsSorted | src/git/conflict.rs:101-106 | the pairs come in strictly increasing lexicographic index order |
| Conflict.IndexPairsComplete | src/git/conflict.rs:101-106 | every pair i < j with i below the outer bound is formed |
| Conflict.CombinationsExactly | src/git/conflict.rs:101-106 | for k paths there are k(k−1)/2 pairs; every `(paths[i], paths[j])` with i < j occurs, and nothing else |
| Conflict.Classify | src/git/conflict.rs:108-117 | OK exactly when the probe returned true, CONFLICT exactly when false, ERROR exactly on an error (keeping it) |
| Conflict.ClassifyAll | src/git/conflict.rs:108-117 | one statistic per pair, in pair order |
| Conflict.Check | src/git/conflict.rs:93-119 | a setup failure is returned as the error; otherwise every pair is classified in order |
| Conflict.Bucket | src/git/conflict.rs:57-63 | a bucket holds only statistics of its own kind |
| Conflict.BucketAppend | src/git/conflict.rs:57-63 | a pushed statistic lands at the end of its own bucket only |
| Conflict.BucketsPartition | src/git/conflict.rs:57-75 | the three buckets split the statistics: the counts add up and the multisets union to the whole |
| Conflict.ConflictStatistics.constructor | src/git/conflict.rs:43-49 | all three buckets start empty |
| Conflict.ConflictStatistics.Push | src/git/conflict.rs:57-63 | the statistic is appended to exactly the bucket of its variant; the total count grows by one |
| Conflict.ConflictStatistics.From | src/git/conflict.rs:50-56 | pushing in iteration order fills each bucket with its statistics in order, and the counts add up to the number pushed |
| PathCompletion.Dedup | src/cli/completion/path.rs:27-29 | the distinct candidates: no duplicates and the same elements |
| PathCompletion.Candidates | src/cli/completion/path.rs:17-26 | each match cut to the prefix length, with `/` added when it goes on |
| PathCompletion.InFull | src/cli/completion/path.rs:31 | each match in full |
| PathCompletion.Complete | src/cli/completion/path.rs:10-37 | no match gives nothing; one gives that path; several give all matches in full if they share one candidate, else exactly their distinct candidates |
| PathCompletion.AbsoluteFilter | src/cli/completion/path.rs:47-56 | exactly the paths that `starts_with` the prefix |
| PathCompletion.AbsoluteMatchesAreLongEnough | src/cli/completion/path.rs:47-56 | every absolute match is at least as long as the prefix, so cutting it is defined |
| PathCompletion.TransformedPrefix | src/cli/completion/path.rs:74-81 | a prefix ending in `.` or `..` gets one empty segment appended; otherwise it is unchanged |
| PathCompletion.Rewritten | src/cli/completion/path.rs:93-94 | the prefix without its last segment, then the path without its first `current_index` segments |
| PathCompletion.RelativeFrom | src/cli/completion/path.rs:84-97 | the filter yields at most one path per input path |
| PathCompletion.RelativeFromSound | src/cli/completion/path.rs:86-95 | every relative result is the rewritten form of a path that starts with `current + prefix` and is longer than `current_index` |
| PathCompletion.RelativeFromComplete | src/cli/completion/path.rs:86-95 | every such path's rewritten form is among the results |
| PathCompletion.RelativeMatchShape | src/cli/completion/path.rs:82-95 | a rewritten match is as long as the path below the current position and starts with the prefix's leading segments |
| PathCompletion.RelativeMatchesAreLongEnough | src/cli/completion/path.rs:82-97 | every relative match is at least as long as the prefix, so cutting it is defined |
| PathCompletion.SlashPrefix | src/cli/completion/path.rs:87 | `c/` is a string prefix of `a/…` exactly when c equals a, for `/`-free c and a |
| PathCompletion.KeptBelowIff | src/cli/completion/path.rs:87-92 | from current path `c` with prefix `""`, exactly the paths `c/x/…` below c are kept |
| PathCompletion.EmptyPrefixListsPathsBelow | src/cli/completion/path.rs:193-200 | from current path `c` with prefix `""`, the matches are the paths below c with c removed |
| PathCompletion.RelativeFromBelow | src/cli/completion/path.rs:84-97 | the filter-and-rewrite with position `c/` lists exactly the paths below c |
| PathCompletion.FromVirtualRootListsAll | src/cli/completion/path.rs:115-125 | from the empty current path with prefix `""`, every path of at least one segment is kept, unchanged and in order |
| CompletionHelper.FindOption | src/cli/completion.rs:69-81 | the first option whose `-short` or `--long` is the token; None exactly when none matches |
| CompletionHelper.CurrentlyEditing | src/cli/completion.rs:24-121 | the token loop computes the stepwise specification; the result is Some exactly when the last token is attributed to an argument |
| CompletionHelper.CursorInvariant | src/cli/completion.rs:82-112 | the current option is declared; positionals are taken in declaration order, and the current one started before the cursor |
| CompletionHelper.CommandNameIsSkipped | src/cli/completion.rs:65-67 | a token equal to the command name is attributed to nothing and changes no state |
| CompletionHelper.OptionTokenStartsOption | src/cli/completion.rs:69-87 | an option token is attributed to nothing itself and becomes the current option, starting there |
| CompletionHelper.OptionPersists | src/cli/completion.rs:82-100 | the current option stays until the next option token |
| CompletionHelper.OptionCaptures | src/cli/completion.rs:31-44 | a later token is attributed to the option exactly when it is not the command name and the action captures it: Set the next token only, Append every later one, the others none |
| CompletionHelper.PositionalsInOrder | src/cli/completion.rs:102-112 | each token takes at most one new positional, the next in declaration order, and is attributed to it |
| CompletionHelper.SetPositionalCoversOneToken | src/cli/completion.rs:45-58 | a Set positional covers only the token it started at |
| CompletionHelper.AppendPositionalCoversLater | src/cli/completion.rs:45-58 | an Append positional covers every later non-option token no option captures |
| CompletionHelper.CommandNameAloneEditsNothing | src/cli/completion.rs:141-147 | `[mytool]` edits nothing |
| CompletionHelper.TestCommand | src/cli/completion.rs:125-140 | the test command has distinct positionals, none of them also an option |
| CompletionHelper.EditingOneOption | src/cli/completion.rs:148-154 | `[mytool, --option1, ""]` edits `option1` |
| CompletionHelper.EditingAfterOptionValue | src/cli/completion.rs:155-161 | `[mytool, --option1, abc, ""]` edits `pos1` |
| CompletionHelper.EditingOnePositional | src/cli/completion.rs:162-168 | `[mytool, abc]` edits `pos1` |
| CompletionHelper.AppendTestTakesBothPositionals | src/cli/completion.rs:169-175 | after `mytool abc a` both positionals are taken |
| CompletionHelper.EditingAppendPositional | src/cli/completion.rs:169-175 | `[mytool, abc, a, b, c, d]` edits `pos2` |
| CompletionHelper.EditingAfterBooleanOption | src/cli/completion.rs:176-182 | `[mytool, -b, ""]` edits `pos1`, since a SetTrue option captures nothing |
| CommandDefs.FindIn | src/cli/def.rs:36-40 | the first command with exactly that name; None exactly when there is none |
| CommandDefs.FindChild | src/cli/def.rs:36-40 | a child with that name; None exactly when no child has it |
| CommandDefs.FindLastChildRecursive | src/cli/def.rs:41-64 | no names or a first name that is not the command's give None; its own name alone gives itself; a matching first name always gives some command; the names left are a non-empty suffix of the input |
| CommandDefs.FindLastIsDeepest | src/cli/def.rs:45-60 | with a matching first name, the command found is the one the remaining names lead to, stopping at the first missing child |
| CommandDefs.FilterByPrefix | src/cli/def.rs:65-70 | exactly the commands whose name starts with the prefix |
| CommandDefs.FindChildrenByPrefix | src/cli/def.rs:65-70 | exactly the children whose name starts with the prefix |
| CommandDefs.EmptyPrefixKeepsAll | src/cli/def.rs:65-70 | the empty prefix keeps every child, in order |
| CommandDefs.PrefixFilterKeepsOrder | src/cli/def.rs:65-70 | filtering keeps input order: filtering a concatenation filters each part |
| CommandDefs.FoundChildMatchesItsPrefixes | src/cli/def.rs:36-70 | the child found by a name is among the children found by any prefix of that name |
| CliUtil.CurrentlyEditing | src/cli/util.rs:24-38 | a true result needs a non-empty last or second-to-last token |
| CliUtil.StartsNameFlagListed | src/cli/util.rs:37 | a token begins `--name` exactly when it is one of `-`, `--`, `--n`, `--na`, `--nam`, `--name` |
| CliUtil.CurrentlyEditingListed | src/cli/util.rs:24-38 | true exactly when the last or second-to-last token is one of those six |
| CliUtil.TargetIsIgnored | src/cli/util.rs:24-38 | the target makes no difference |
| CliUtil.OnlyLastTwoTokensCount | src/cli/util.rs:24-38 | two command lines ending in the same two tokens give the same answer |

## Left out

- Children stored in a `HashMap` (`src/model/node.rs`, `src/git/model/node.rs`) are a
  sequence with unique names in insertion order. Every result that depends on the map's
  iteration order follows that insertion order: `get_qualified_paths_by`, `get_tags` and
  the descendant lists.
- QualifiedPaths.ToGitBranch: requires a path of at least one segment. For the empty path,
  `self.path.len() - 1` in `src/git/model/qualified_path.rs:65` underflows and panics.
- TreeDataModel: the `Node<AreaNode>` root of `src/git/model/tree.rs:8` and its children
  are name nodes without a role. The role-checked insertion of `src/git/model/node.rs` is
  modelled by `BranchNode` on its own.
- QualifiedPaths.FromString: its own contract states only that the result is non-empty.
  What it decodes to is stated by `QualifiedPaths.Get` and `QualifiedPaths.RoundTrip`.
- Some operations are plain definitions without a contract of their own. The lemmas
  named here state their properties:
  - `QualifiedPaths.ToGitBranch` and `ToString`: `EncodingIsJoin`, `EncodedSegments`,
    `RoundTrip`.
  - `QualifiedPaths.StartsWith`: the three `StartsWith` lemmas.
  - `GitNode.StripBranchType`: `StripBranchTypeShortens`.
  - `GitNode.BranchDataModel.GetGitBranch` and `HasQualifiedPath`: the
    `InsertFromGitNativeBranch` method and `InsertedBranchIsFound`.
  - `GitNode.IterChildrenReq`: the finding below.
  - `NodePaths.Concretize` and `LegacyNodePaths.Concretize`: `ConcretizeKeepsChain`.
  - The path-to-root functions: `PathsToRoots`.
  - `NodePaths.GetTags`: `TagPaths`.
  - `LegacyNodePaths.GetChildPathsByBranch`: `ChildPathsByBranch`.
  - `Conflict.ConflictStatistics.IterOk`, `NOk`, `NConflict` and `NErrors`: `Push` and
    `From`, which keep the three buckets.
  - `PathCompletion.AbsoluteComplete` and `RelativeComplete`: `Complete` together with the
    filter lemmas.
  - `RoleTree.QualifiedPathsBy`: `QualifiedPathsByCollects`.
  - `SymFeatureTree.InsertAll`: `AddedPathsAreReachable`.
- `Rc`/`RefCell` sharing is not modelled, nor the `get_child_mut` panic when shared
  references exist: trees are values.
- The `HashMap`s of `src/git/model.rs` are Dafny maps.
- GitModel.BranchDataModel.GetShortFeatureNames: returns a set, because the source's
  order is the map's. Its `panic!` on an empty list is never reached, because a list is
  created with one entry.
- QualifiedPaths.Push: a value function returning the extended path rather than
  updating it in place.
- `PartialEq` is Dafny's sequence equality. `Display` is not modelled.
- `crate::model::QualifiedPath` (used by `src/model/*` and `src/cli/completion/path.rs`)
  is not part of this model.
  - It is modelled with the semantics of `src/git/model/qualified_path.rs`.
  - `strip_n_left` and `strip_n_right` are taken as `trim_n_left` and `trim_n_right`, and
    `last` as `_last`.
- The relative completion tests with `.` and `..` (`src/cli/completion/path.rs:143-191`)
  need path normalisation from that missing file, so they are not stated.
  - With the string-prefix `starts_with` shown, they would not hold.
  - The filter step of the test from the virtual root is `FromVirtualRootListsAll`, and
    that of the test from current path `foo` is `EmptyPrefixListsPathsBelow`. The sorted
    string lists those tests compare are not stated.
- PathCompletion.Dedup: the `HashSet` order of `complete` is replaced by first
  occurrence order. The tests sort the result anyway.
- PathCompletion.RelativeFilter: requires a prefix of at least one segment, and so does
  `RelativeComplete`. The empty path would underflow `transformed_prefix.len() - 1`, and
  every caller builds the prefix with `From`, which yields at least one segment.
- PathCompletion.AbsoluteComplete: requires every known path to have at least one segment,
  as every path read from the branch list has.
- `src/git/model/node_path.rs:89-96` calls `get_metadata`/`get_qualified_paths_by` on the
  older node, which `src/git/model/node.rs` does not define.
  - "Has a branch" is modelled as a native branch being recorded.
  - The path of a descendant is modelled as the names pushed one by one.
  - On a leaf, `get_qualified_paths_by` presumably returns an empty map, so the
    `.get(&0).unwrap()` of `src/git/model/node_path.rs:95` would panic. The model returns
    no paths there instead.
- LegacyNodePaths.WithBranch: its own contract only bounds the length; what it lists is
  stated by `WithBranchExactly` and `ChildPathsByBranch`.
- The `PhantomData` type parameter of `NodePath<T>` is recovered by `Concretize` from the
  tip's role. The casts between `NodePath` types are not modelled separately.
- RoleTree.InsertNodePath: requires a non-empty path. In `src/model/node.rs:190` an
  empty path panics at `get(0).unwrap()` before the length is matched, so the `0 =>` arm
  is not modelled.
- GitNode.InsertFromSplitPath: requires a non-empty path (`path[0]` would panic). Its
  only caller splits a string, which always gives at least one segment.
- The git calls of `ConflictChecker` (`src/git/conflict.rs:97-99`, `121-134`) are not
  modelled:
  - the current-area lookup and checkout become the `setup` parameter of `Conflict.Check`;
  - `check_two` becomes the `probe` function parameter.
- The `Display`/`String` colour formatting of `src/git/conflict.rs` is not modelled.
- Conflict.Check: returns the whole list rather than a lazy iterator, so the probe
  calls happen in pair order.
- `ConflictStatistics::iter_ok` is the `ok` bucket read in order, and `FromIterator` is
  `From`.
- `CommandMap::new` is not modelled: it builds the map from clap commands and trait
  objects. The command tree is given directly as names and children.
- CommandDefs.FindLastChildRecursive: the source removes the first name from the
  caller's `Vec` in place. The model returns what is left of the names beside the result.
- The fallback to `Some(self)` after a `None` descent is kept, although
  `FindLastChildRecursive`'s own contract shows it cannot occur: a matching child always
  yields a command.
- `CompletionHelper::new` and `get_appendix` (plain accessors) and the clap `ArgMatches`
  helpers `get_argument_value(s)` of `src/cli/util.rs` are not modelled.
- A clap `Arg` is reduced to its id, short flag, long flag and action.
- CliUtil.CurrentlyEditing: requires at least two tokens: `len() - 2` underflows
  otherwise, and the release-build wrap-around is not modelled.
- CompletionHelper.CurrentlyEditing: requires at least one token, because of `len() - 1`.
- Tree rendering (`display_tree`, `build_display_tree`, `format_node_display`) is not
  modelled: it is output formatting through external crates.
- Every command handler, git subprocess and file access is not modelled: they are I/O.
- The `BranchData`/`NodeData` getters are plain field reads of the datatypes.
- `SymPath::get_first`/`get_last` are the first and last element of the node list.

## Findings

| source | as written | input that shows it | evidently intended | confidence | as-written member | corrected member |
|---|---|---|---|---|---|---|
| src/git/node.rs:51-57 | `iter_children_req` maps every child to that child's own `iter_children_req` and flattens, never yielding a child itself, so every tree yields nothing | a root with one child `a`: the result is empty although `a` is below the root | every node below the root, each before its own descendants | not executed | GitNode.IterChildrenReqIsEmpty | GitNode.Descendants |
