/**
 * The branch index of src/git/node.rs: a tree of `SymNode`s (a name, the native branch
 * standing behind the node if any, and a list of children) together with the list of
 * qualified paths of the existing branches. Native branch lines are cleaned up into
 * qualified paths, indexed once, and inserted into the tree with their native name.
 */
module GitNode {
  import opened Wrappers
  import opened Strings
  import opened TreeDataModel

  datatype BranchData = BranchData(gitBranch: string)

  datatype SymNode = SymNode(name: string, children: seq<SymNode>, branchData: Option<BranchData>)

  /** `SymNode::new(name, branch_data)`: a childless node. */
  function New(name: string, branchData: Option<BranchData>): (r: SymNode)
    ensures r.name == name && r.children == [] && r.branchData == branchData
  {
    SymNode(name, [], branchData)
  }

  /** Position of the first child called `name` (`iter().find`). */
  function ChildIndex(children: seq<SymNode>, name: string): (r: Option<nat>)
    ensures r.Some? ==> r.value < |children| && children[r.value].name == name
    ensures r.Some? ==> forall j | 0 <= j < r.value :: children[j].name != name
    ensures r.None? <==> forall j | 0 <= j < |children| :: children[j].name != name
  {
    if |children| == 0 then None
    else if children[0].name == name then Some(0)
    else match ChildIndex(children[1..], name)
      case None => None
      case Some(i) => Some(i + 1)
  }

  lemma FirstMatch(children: seq<SymNode>, name: string, k: nat)
    requires k < |children| && children[k].name == name
    requires forall j | 0 <= j < k :: children[j].name != name
    ensures ChildIndex(children, name) == Some(k)
  {
    var r := ChildIndex(children, name);
    assert r.Some?;
  }

  /** `get_child(name)`: the first child with that name. */
  function GetChild(n: SymNode, name: string): (r: Option<SymNode>)
    ensures r.Some? <==> exists j | 0 <= j < |n.children| :: n.children[j].name == name
    ensures r.Some? ==> r.value in n.children && r.value.name == name
  {
    match ChildIndex(n.children, name)
    case None => None
    case Some(i) => Some(n.children[i])
  }

  /** `add_child(node)`: pushes at the end. */
  function AddChild(n: SymNode, child: SymNode): (r: SymNode)
    ensures r.name == n.name && r.branchData == n.branchData && r.children == n.children + [child]
  {
    n.(children := n.children + [child])
  }

  /** `update_branch_data(data)`: replaces the branch data, also by None. */
  function UpdateBranchData(n: SymNode, branchData: Option<BranchData>): (r: SymNode)
    ensures r.name == n.name && r.children == n.children && r.branchData == branchData
  {
    n.(branchData := branchData)
  }

  /**
   * `insert_from_split_path(path, branch_data)`: at the last segment an existing child's
   * branch data is replaced and a missing child is pushed with it; at earlier segments an
   * existing child is descended into and a missing one is pushed without branch data first.
   * `path[0]` on an empty path would panic; the only caller never passes one.
   */
  function InsertFromSplitPath(n: SymNode, path: seq<string>, branchData: Option<BranchData>): (r: SymNode)
    requires |path| >= 1
    ensures r.name == n.name && r.branchData == n.branchData
    decreases |path|
  {
    var name := path[0];
    if |path| == 1 then
      match ChildIndex(n.children, name)
      case Some(i) => n.(children := n.children[i := UpdateBranchData(n.children[i], branchData)])
      case None => AddChild(n, New(name, branchData))
    else
      match ChildIndex(n.children, name)
      case Some(i) => n.(children := n.children[i := InsertFromSplitPath(n.children[i], path[1..], branchData)])
      // the child pushed last is the one `get_child_mut(name).unwrap()` then finds
      case None => AddChild(n, InsertFromSplitPath(New(name, None), path[1..], branchData))
  }

  /** `insert_qualified_path(path, branch_data)`: the `/`-split segments inserted. */
  function InsertQualifiedPath(n: SymNode, qualifiedPath: string, branchData: Option<BranchData>): SymNode
  {
    InsertFromSplitPath(n, Split(qualifiedPath, '/'), branchData)
  }

  /** The nodes named by `names`, each a child of the one before; None at the first missing one. */
  function Descend(n: SymNode, names: seq<string>): (r: Option<seq<SymNode>>)
    ensures r.Some? ==> |r.value| == |names| && forall k | 0 <= k < |names| :: r.value[k].name == names[k]
    decreases |names|
  {
    if |names| == 0 then Some([])
    else match GetChild(n, names[0])
      case None => None
      case Some(c) =>
        match Descend(c, names[1..])
        case None => None
        case Some(rest) => Some([c] + rest)
  }

  /** `xs` put in front of a descent, if there is one. */
  function Prepend(xs: seq<SymNode>, o: Option<seq<SymNode>>): Option<seq<SymNode>>
  {
    match o
    case None => None
    case Some(ys) => Some(xs + ys)
  }

  /** `get_path(qualified_path)`: the `/`-split segments walked from the node. */
  method GetPath(n: SymNode, qualifiedPath: string) returns (r: Option<seq<SymNode>>)
    ensures r == Descend(n, Split(qualifiedPath, '/'))
  {
    r := Walk(n, Split(qualifiedPath, '/'));
  }

  /** The loop of `get_path`: a cursor moved down one segment at a time. */
  method Walk(n: SymNode, names: seq<string>) returns (r: Option<seq<SymNode>>)
    ensures r == Descend(n, names)
  {
    var current := n;
    var nodeVec: seq<SymNode> := [];
    assert Descend(n, names) == Prepend([], Descend(n, names[0..])) by {
      assert names[0..] == names;
      if Descend(n, names).Some? {
        assert [] + Descend(n, names).value == Descend(n, names).value;
      }
    }
    var i := 0;
    while i < |names|
      invariant 0 <= i <= |names|
      invariant Descend(n, names) == Prepend(nodeVec, Descend(current, names[i..]))
    {
      var maybeChild := GetChild(current, names[i]);
      if maybeChild.Some? {
        var child := maybeChild.value;
        DescendStep(current, names[i..], nodeVec, child);
        assert names[i..][1..] == names[i + 1..];
        nodeVec := nodeVec + [child];
        current := child;
      } else {
        assert names[i..][0] == names[i];
        return None;
      }
      i := i + 1;
    }
    assert nodeVec + [] == nodeVec;
    return Some(nodeVec);
  }

  lemma DescendStep(current: SymNode, names: seq<string>, prefix: seq<SymNode>, child: SymNode)
    requires |names| >= 1 && GetChild(current, names[0]) == Some(child)
    ensures Prepend(prefix, Descend(current, names)) == Prepend(prefix + [child], Descend(child, names[1..]))
  {
    var rest := Descend(child, names[1..]);
    if rest.Some? {
      assert prefix + ([child] + rest.value) == prefix + [child] + rest.value;
    }
  }

  /** The names of a list of nodes. */
  function Names(ns: seq<SymNode>): (r: seq<string>)
    ensures |r| == |ns| && forall k | 0 <= k < |ns| :: r[k] == ns[k].name
  {
    if |ns| == 0 then [] else [ns[0].name] + Names(ns[1..])
  }

  /** `SymPath::get_qualified_path`: the node names joined with `/`. */
  function SymPathQualifiedPath(ns: seq<SymNode>): string
  {
    Join(Names(ns), '/')
  }

  /** The native branch of the node a walk along `names` ends at, if any. */
  function BranchAt(root: SymNode, names: seq<string>): Option<string>
  {
    match Descend(root, names)
    case None => None
    case Some(ns) =>
      if |ns| == 0 then None
      else match ns[|ns| - 1].branchData
        case None => None
        case Some(d) => Some(d.gitBranch)
  }

  /** The native branch of the node a qualified path leads to, if any. */
  function GitBranchAt(root: SymNode, qualifiedPath: string): Option<string>
  {
    BranchAt(root, Split(qualifiedPath, '/'))
  }

  /** `iter_children_req` as written: every leaf yields nothing, so every node does. */
  function IterChildrenReq(n: SymNode): seq<SymNode>
    decreases n
  {
    FlattenReq(n.children)
  }

  function FlattenReq(cs: seq<SymNode>): seq<SymNode>
    decreases cs
  {
    if |cs| == 0 then [] else IterChildrenReq(cs[0]) + FlattenReq(cs[1..])
  }

  /**
   * What `iter_children_req` is evidently for: every descendant, each before its own.
   * The children are listed, and so is everything listed below any child.
   */
  function Descendants(n: SymNode): (r: seq<SymNode>)
    ensures forall c | c in n.children :: c in r
    ensures forall c, d | c in n.children && d in Descendants(c) :: d in r
    decreases n, 1
  {
    DescendantsOf(n.children)
  }

  function DescendantsOf(cs: seq<SymNode>): (r: seq<SymNode>)
    ensures forall c | c in cs :: c in r
    ensures forall c, d | c in cs && d in Descendants(c) :: d in r
    decreases cs, 0
  {
    if |cs| == 0 then []
    else
      var rest := DescendantsOf(cs[1..]);
      assert forall c | c in cs :: c == cs[0] || c in cs[1..];
      [cs[0]] + Descendants(cs[0]) + rest
  }

  /** Number of nodes in a tree. */
  function Size(n: SymNode): nat
    decreases n
  {
    1 + SizeOf(n.children)
  }

  function SizeOf(cs: seq<SymNode>): nat
    decreases cs
  {
    if |cs| == 0 then 0 else Size(cs[0]) + SizeOf(cs[1..])
  }

  /** Children's names are pairwise distinct, at every level. */
  predicate UniqueNames(n: SymNode)
  {
    && (forall i, j | 0 <= i < j < |n.children| :: n.children[i].name != n.children[j].name)
    && (forall i | 0 <= i < |n.children| :: UniqueNames(n.children[i]))
  }

  predicate NoDuplicates(s: seq<string>)
  {
    forall i, j | 0 <= i < j < |s| :: s[i] != s[j]
  }

  /** The two kinds of branches `branch_type` tells apart. */
  datatype BranchKind = FeatureBranch | ProductBranch

  /** `branch_type(branch)`: by string prefix, `feature/` before `product/`. */
  function BranchType(branch: string): (r: Option<BranchKind>)
    ensures r == Some(FeatureBranch) <==> FeaturePathPrefix() <= branch
    ensures r == Some(ProductBranch) <==> !(FeaturePathPrefix() <= branch) && ProductPathPrefix() <= branch
  {
    if FeaturePathPrefix() <= branch then Some(FeatureBranch)
    else if ProductPathPrefix() <= branch then Some(ProductBranch)
    else None
  }

  /** `strip_branch_type(branch)`: every occurrence of the recognised prefix removed. */
  function StripBranchType(branch: string): string
  {
    match BranchType(branch)
    case Some(FeatureBranch) => ReplaceAll(branch, FeaturePathPrefix(), "")
    case Some(ProductBranch) => ReplaceAll(branch, ProductPathPrefix(), "")
    case None => branch
  }

  /** The entries of `paths` starting with `prefix`, in order. */
  function Filter(paths: seq<string>, prefix: string): (r: seq<string>)
    ensures forall x | x in r :: x in paths && prefix <= x
    ensures forall x | x in paths && prefix <= x :: x in r
    ensures NoDuplicates(paths) ==> NoDuplicates(r)
  {
    if |paths| == 0 then []
    else
      var rest := Filter(paths[1..], prefix);
      assert forall x | x in paths :: x == paths[0] || x in paths[1..];
      if prefix <= paths[0] then
        assert NoDuplicates(paths) ==> paths[0] !in paths[1..];
        [paths[0]] + rest
      else rest
  }

  class BranchDataModel {
    var rootNode: SymNode
    var qualifiedPaths: seq<string>

    /** The index holds no duplicates, the root is called "" and the tree's child names are unique. */
    predicate Valid()
      reads this
    {
      NoDuplicates(qualifiedPaths) && rootNode.name == "" && UniqueNames(rootNode)
    }

    /** `BranchDataModel::new()`: an empty root called "" and an empty index. */
    constructor ()
      ensures rootNode == New("", None) && qualifiedPaths == []
      ensures Valid()
    {
      rootNode := New("", None);
      qualifiedPaths := [];
    }

    /**
     * `insert_from_git_native_branch(branch)`: the line's qualified path enters the index
     * unless it is already there, and enters the tree with the star-stripped, trimmed line
     * as its native branch unless it equals the root's name.
     */
    method InsertFromGitNativeBranch(branch: string)
      requires Valid()
      modifies this
      ensures Valid()
      ensures qualifiedPaths == old(qualifiedPaths)
        + (if Converted(branch) in old(qualifiedPaths) then [] else [Converted(branch)])
      ensures rootNode == if Converted(branch) != old(rootNode).name
        then InsertQualifiedPath(old(rootNode), Converted(branch), Some(BranchData(WithoutStar(branch))))
        else old(rootNode)
      ensures HasQualifiedPath(Converted(branch))
      ensures Converted(branch) != "" ==> GetGitBranch(Converted(branch)) == Some(WithoutStar(branch))
    {
      var withoutStar := WithoutStar(branch);
      var converted := TransformToQualifiedPath(withoutStar);
      Record(converted, withoutStar);
    }

    /** The two updates of `insert_from_git_native_branch` once the line is cleaned up. */
    method Record(converted: string, withoutStar: string)
      requires Valid()
      modifies this
      ensures Valid()
      ensures qualifiedPaths == old(qualifiedPaths) + (if converted in old(qualifiedPaths) then [] else [converted])
      ensures rootNode == if converted != old(rootNode).name
        then InsertQualifiedPath(old(rootNode), converted, Some(BranchData(withoutStar)))
        else old(rootNode)
      ensures HasQualifiedPath(converted)
      ensures converted != "" ==> GetGitBranch(converted) == Some(withoutStar)
    {
      if converted !in qualifiedPaths {
        qualifiedPaths := qualifiedPaths + [converted];
      }
      if converted != rootNode.name {
        InsertQualifiedKeepsNamesUnique(rootNode, converted, Some(BranchData(withoutStar)));
        InsertedBranchIsFound(rootNode, converted, withoutStar);
        rootNode := InsertQualifiedPath(rootNode, converted, Some(BranchData(withoutStar)));
      }
    }

    /** `get_feature_root_of(area)`: the `feature` child of the area child of the root. */
    function GetFeatureRootOf(area: string): (r: Option<SymNode>)
      reads this
      ensures r.Some? ==> exists a | a in rootNode.children ::
        a.name == area && r.value in a.children && r.value.name == FeaturesPrefix
      ensures Valid() ==> (r.Some? <==> exists a, c | a in rootNode.children && c in a.children ::
        a.name == area && c.name == FeaturesPrefix)
    {
      AreaRootExactly(rootNode, area, FeaturesPrefix);
      AreaRoot(rootNode, area, FeaturesPrefix)
    }

    /** `get_product_root_of(area)`: the `product` child of the area child of the root. */
    function GetProductRootOf(area: string): (r: Option<SymNode>)
      reads this
      ensures r.Some? ==> exists a | a in rootNode.children ::
        a.name == area && r.value in a.children && r.value.name == ProductsPrefix
      ensures Valid() ==> (r.Some? <==> exists a, c | a in rootNode.children && c in a.children ::
        a.name == area && c.name == ProductsPrefix)
    {
      AreaRootExactly(rootNode, area, ProductsPrefix);
      AreaRoot(rootNode, area, ProductsPrefix)
    }

    /** `iter_all_features_with_branches_of(area)`: indexed paths starting with `area/feature`. */
    function IterAllFeaturesWithBranchesOf(area: string): (r: seq<string>)
      reads this
      ensures forall x | x in r :: x in qualifiedPaths && area + "/" + FeaturesPrefix <= x
      ensures forall x | x in qualifiedPaths && area + "/" + FeaturesPrefix <= x :: x in r
    {
      Filter(qualifiedPaths, area + "/" + FeaturesPrefix)
    }

    /** `get_git_branch(qualified_path)`: the native branch stored where the path leads. */
    function GetGitBranch(qualifiedPath: string): Option<string>
      reads this
    {
      GitBranchAt(rootNode, qualifiedPath)
    }

    /** `has_qualified_path(qualified_path)`. */
    predicate HasQualifiedPath(qualifiedPath: string)
      reads this
    {
      qualifiedPath in qualifiedPaths
    }
  }

  // ------------------------------------------------------------------ properties

  /**
   * One insertion step: at the last segment only the named child's branch data changes
   * (or a child carrying it is pushed); at earlier segments a missing child is pushed
   * without branch data. Every other child is untouched.
   */
  lemma InsertStep(n: SymNode, path: seq<string>, d: Option<BranchData>)
    requires |path| >= 1
    ensures var r := InsertFromSplitPath(n, path, d);
      match ChildIndex(n.children, path[0])
      case Some(i) =>
        && |r.children| == |n.children|
        && (forall j | 0 <= j < |n.children| && j != i :: r.children[j] == n.children[j])
        && r.children[i].name == path[0] && r.children[i].branchData == (if |path| == 1 then d else n.children[i].branchData)
      case None =>
        && r.children[..|n.children|] == n.children
        && |r.children| == |n.children| + 1
        && r.children[|n.children|].name == path[0]
        && r.children[|n.children|].branchData == (if |path| == 1 then d else None)
  {
  }

  /** The walk along `path` succeeds and its last node carries `d`. */
  predicate LastCarries(r: SymNode, path: seq<string>, d: Option<BranchData>)
    requires |path| >= 1
  {
    Descend(r, path).Some? && Descend(r, path).value[|path| - 1].branchData == d
  }

  /** The walk goes through the first child named `path[0]`, so it ends where that child's walk ends. */
  lemma CarriesThrough(r: SymNode, path: seq<string>, k: nat, d: Option<BranchData>)
    requires |path| >= 1 && k < |r.children| && r.children[k].name == path[0]
    requires forall j | 0 <= j < k :: r.children[j].name != path[0]
    requires |path| == 1 ==> r.children[k].branchData == d
    requires |path| > 1 ==> LastCarries(r.children[k], path[1..], d)
    ensures LastCarries(r, path, d)
  {
    FirstMatch(r.children, path[0], k);
    if |path| == 1 {
      assert Descend(r.children[k], path[1..]) == Some([]);
    }
  }

  /** After `insert_from_split_path(p, d)`, the walk along p succeeds and its last node carries d. */
  lemma {:induction false} InsertThenDescend(n: SymNode, path: seq<string>, d: Option<BranchData>)
    requires |path| >= 1
    ensures LastCarries(InsertFromSplitPath(n, path, d), path, d)
    decreases |path|
  {
    var r := InsertFromSplitPath(n, path, d);
    InsertStep(n, path, d);
    match ChildIndex(n.children, path[0])
    case Some(k) =>
      if |path| > 1 {
        InsertThenDescend(n.children[k], path[1..], d);
      }
      CarriesThrough(r, path, k, d);
    case None =>
      if |path| > 1 {
        InsertThenDescend(New(path[0], None), path[1..], d);
      }
      CarriesThrough(r, path, |n.children|, d);
  }

  /** Inserting never creates a second child with an existing name. */
  lemma {:induction false} InsertKeepsNamesUnique(n: SymNode, path: seq<string>, d: Option<BranchData>)
    requires |path| >= 1 && UniqueNames(n)
    ensures UniqueNames(InsertFromSplitPath(n, path, d))
    decreases |path|
  {
    var r := InsertFromSplitPath(n, path, d);
    match ChildIndex(n.children, path[0])
    case Some(i) =>
      if |path| > 1 {
        InsertKeepsNamesUnique(n.children[i], path[1..], d);
      }
      assert forall j | 0 <= j < |r.children| :: r.children[j].name == n.children[j].name;
    case None =>
      if |path| > 1 {
        InsertKeepsNamesUnique(New(path[0], None), path[1..], d);
      }
      assert forall j | 0 <= j < |n.children| :: r.children[j] == n.children[j];
  }

  /** The tree of the branch index keeps unique names under `insert_qualified_path`. */
  lemma InsertQualifiedKeepsNamesUnique(n: SymNode, qualifiedPath: string, d: Option<BranchData>)
    requires UniqueNames(n)
    ensures UniqueNames(InsertQualifiedPath(n, qualifiedPath, d))
  {
    InsertKeepsNamesUnique(n, Split(qualifiedPath, '/'), d);
  }

  /** A path found by `get_path` joins back to the query. */
  lemma GetPathJoinsBack(n: SymNode, qualifiedPath: string)
    requires Descend(n, Split(qualifiedPath, '/')).Some?
    ensures SymPathQualifiedPath(Descend(n, Split(qualifiedPath, '/')).value) == qualifiedPath
    ensures |Descend(n, Split(qualifiedPath, '/')).value| >= 1
  {
    var names := Split(qualifiedPath, '/');
    var ns := Descend(n, names).value;
    assert Names(ns) == names;
    JoinSplit(qualifiedPath, '/');
  }

  /** After inserting a qualified path with a native branch, `get_git_branch` finds that branch. */
  lemma InsertedBranchIsFound(root: SymNode, qualifiedPath: string, gitBranch: string)
    ensures GitBranchAt(InsertQualifiedPath(root, qualifiedPath, Some(BranchData(gitBranch))), qualifiedPath)
         == Some(gitBranch)
  {
    SplitCount(qualifiedPath, '/');
    InsertedBranchIsReached(root, Split(qualifiedPath, '/'), gitBranch);
  }

  lemma InsertedBranchIsReached(root: SymNode, names: seq<string>, gitBranch: string)
    requires |names| >= 1
    ensures BranchAt(InsertFromSplitPath(root, names, Some(BranchData(gitBranch))), names) == Some(gitBranch)
  {
    var r := InsertFromSplitPath(root, names, Some(BranchData(gitBranch)));
    InsertThenDescend(root, names, Some(BranchData(gitBranch)));
    CarrierIsFound(r, names, gitBranch);
  }

  lemma CarrierIsFound(r: SymNode, names: seq<string>, gitBranch: string)
    requires |names| >= 1 && LastCarries(r, names, Some(BranchData(gitBranch)))
    ensures BranchAt(r, names) == Some(gitBranch)
  {
  }

  /** `strip_branch_type` leaves a branch without a recognised prefix alone and shortens the others. */
  lemma StripBranchTypeShortens(branch: string)
    ensures BranchType(branch).None? ==> StripBranchType(branch) == branch
    ensures BranchType(branch).Some? ==> |StripBranchType(branch)| < |branch|
  {
    if BranchType(branch) == Some(FeatureBranch) {
      ReplaceWithEmptyShortens(branch, FeaturePathPrefix());
    } else if BranchType(branch) == Some(ProductBranch) {
      ReplaceWithEmptyShortens(branch, ProductPathPrefix());
    }
  }

  lemma {:induction false} ReplaceWithEmptyShortens(s: string, pat: string)
    requires |pat| > 0
    ensures |ReplaceAll(s, pat, "")| <= |s|
    ensures pat <= s ==> |ReplaceAll(s, pat, "")| <= |s| - |pat|
    decreases |s|
  {
    if |s| >= |pat| {
      if pat <= s {
        ReplaceWithEmptyShortens(s[|pat|..], pat);
      } else {
        ReplaceWithEmptyShortens(s[1..], pat);
      }
    }
  }

  /** As written, `iter_children_req` yields nothing for any tree. */
  lemma {:induction false} IterChildrenReqIsEmpty(n: SymNode)
    ensures IterChildrenReq(n) == []
    decreases n, 1
  {
    FlattenReqIsEmpty(n.children);
  }

  lemma {:induction false} FlattenReqIsEmpty(cs: seq<SymNode>)
    ensures FlattenReq(cs) == []
    decreases cs, 0
  {
    if |cs| > 0 {
      IterChildrenReqIsEmpty(cs[0]);
      FlattenReqIsEmpty(cs[1..]);
    }
  }

  /** The descendants listing holds every node below the root once: size minus one. */
  lemma {:induction false} DescendantsCount(n: SymNode)
    ensures |Descendants(n)| == Size(n) - 1
    decreases n, 1
  {
    DescendantsOfCount(n.children);
  }

  lemma {:induction false} DescendantsOfCount(cs: seq<SymNode>)
    ensures |DescendantsOf(cs)| == SizeOf(cs)
    decreases cs, 0
  {
    if |cs| > 0 {
      DescendantsCount(cs[0]);
      DescendantsOfCount(cs[1..]);
    }
  }

  /** A node with a child has descendants, which `iter_children_req` misses. */
  lemma IterChildrenReqMissesChildren(n: SymNode)
    requires |n.children| > 0
    ensures n.children[0] in Descendants(n) && n.children[0] !in IterChildrenReq(n)
  {
    IterChildrenReqIsEmpty(n);
  }

  /**
   * Nothing else is listed: a node is among the descendants exactly when it is a child or
   * among the descendants of a child.
   */
  lemma DescendantsExactly(n: SymNode, x: SymNode)
    ensures x in Descendants(n) <==> exists c | c in n.children :: x == c || x in Descendants(c)
  {
    DescendantsOfExactly(n.children, x);
  }

  lemma {:induction false} DescendantsOfExactly(cs: seq<SymNode>, x: SymNode)
    ensures x in DescendantsOf(cs) <==> exists c | c in cs :: x == c || x in Descendants(c)
    decreases cs
  {
    if |cs| > 0 {
      DescendantsOfExactly(cs[1..], x);
      if x in DescendantsOf(cs) {
        if x !in [cs[0]] + Descendants(cs[0]) {
          var c :| c in cs[1..] && (x == c || x in Descendants(c));
          assert c in cs;
        } else {
          assert cs[0] in cs;
        }
      }
    }
  }

  /** The entry at `i` is directly followed by its own descendants. */
  predicate FollowsAt(s: seq<SymNode>, i: nat)
    requires i < |s|
  {
    i + 1 + |Descendants(s[i])| <= |s| && s[i + 1..i + 1 + |Descendants(s[i])|] == Descendants(s[i])
  }

  /** Every entry of a listing is directly followed by its own descendants. */
  predicate FollowedByOwn(s: seq<SymNode>)
  {
    forall i | 0 <= i < |s| :: FollowsAt(s, i)
  }

  /** The listing is in pre-order: each node is directly followed by its own descendants. */
  lemma {:induction false} DescendantsPreOrder(n: SymNode)
    ensures FollowedByOwn(Descendants(n))
    decreases n, 1
  {
    DescendantsOfPreOrder(n.children);
  }

  lemma {:induction false} DescendantsOfPreOrder(cs: seq<SymNode>)
    ensures FollowedByOwn(DescendantsOf(cs))
    decreases cs, 0
  {
    if |cs| > 0 {
      var c := cs[0];
      DescendantsPreOrder(c);
      DescendantsOfPreOrder(cs[1..]);
      var head := [c] + Descendants(c);
      forall i | 0 <= i < |head|
        ensures FollowsAt(head, i)
      {
        if i == 0 {
          assert head[1..] == Descendants(c);
        } else {
          FollowsBehind([c], Descendants(c), i - 1);
        }
      }
      var rest := DescendantsOf(cs[1..]);
      forall i | 0 <= i < |head + rest|
        ensures FollowsAt(head + rest, i)
      {
        if i < |head| {
          FollowsBefore(head, rest, i);
        } else {
          FollowsBehind(head, rest, i - |head|);
        }
      }
    }
  }

  /** Putting entries in front keeps an entry followed by its descendants. */
  lemma FollowsBehind(front: seq<SymNode>, s: seq<SymNode>, i: nat)
    requires i < |s| && FollowsAt(s, i)
    ensures FollowsAt(front + s, |front| + i)
  {
    var len := |Descendants(s[i])|;
    assert (front + s)[|front| + i] == s[i];
    assert (front + s)[|front| + i + 1..|front| + i + 1 + len] == s[i + 1..i + 1 + len];
  }

  /** Putting entries behind keeps an entry followed by its descendants. */
  lemma FollowsBefore(s: seq<SymNode>, back: seq<SymNode>, i: nat)
    requires i < |s| && FollowsAt(s, i)
    ensures FollowsAt(s + back, i)
  {
    var len := |Descendants(s[i])|;
    assert (s + back)[i] == s[i];
    assert (s + back)[i + 1..i + 1 + len] == s[i + 1..i + 1 + len];
  }

  /** The `kind` child of the root's child called `area`: the lookup of both area-root getters. */
  function AreaRoot(root: SymNode, area: string, kind: string): (r: Option<SymNode>)
    ensures r.Some? ==> exists a | a in root.children :: a.name == area && r.value in a.children && r.value.name == kind
  {
    match GetChild(root, area)
    case None => None
    case Some(a) => GetChild(a, kind)
  }

  /** With unique names, the area root exists exactly when the root has such a grandchild. */
  lemma AreaRootExactly(root: SymNode, area: string, kind: string)
    ensures UniqueNames(root) ==> (AreaRoot(root, area, kind).Some? <==>
      exists a, c | a in root.children && c in a.children :: a.name == area && c.name == kind)
  {
    if UniqueNames(root) && exists a, c | a in root.children && c in a.children :: a.name == area && c.name == kind {
      var a, c :| a in root.children && c in a.children && a.name == area && c.name == kind;
      UniqueChildIsFound(root, a);
    }
  }

  /** Under unique names, a child is what looking up its name finds. */
  lemma UniqueChildIsFound(n: SymNode, c: SymNode)
    requires forall i, j | 0 <= i < j < |n.children| :: n.children[i].name != n.children[j].name
    requires c in n.children
    ensures GetChild(n, c.name) == Some(c)
  {
    var j :| 0 <= j < |n.children| && n.children[j] == c;
    var i := ChildIndex(n.children, c.name).value;
    assert i == j;
  }

  /** After inserting `area/kind/...`, the area root of that kind exists. */
  lemma AreaRootAfterInsert(root: SymNode, path: seq<string>, d: Option<BranchData>)
    requires |path| >= 2
    ensures AreaRoot(InsertFromSplitPath(root, path, d), path[0], path[1]).Some?
  {
    var r := InsertFromSplitPath(root, path, d);
    InsertThenDescend(root, path, d);
    var a := GetChild(r, path[0]).value;
    assert Descend(a, path[1..]).Some?;
    assert path[1..][0] == path[1];
  }

  /** A branch made of the feature prefix and a remainder free of it loses just the prefix. */
  lemma StripFeaturePrefix(rest: string)
    requires !Occurs(rest, FeaturePathPrefix())
    ensures StripBranchType(FeaturePathPrefix() + rest) == rest
  {
    assert FeaturePathPrefix() <= FeaturePathPrefix() + rest;
    ReplaceLeading(FeaturePathPrefix(), rest, "");
    ReplaceAbsent(rest, FeaturePathPrefix(), "");
  }

  /** A branch made of the product prefix and a remainder free of it loses just the prefix. */
  lemma StripProductPrefix(rest: string)
    requires !Occurs(rest, ProductPathPrefix())
    ensures StripBranchType(ProductPathPrefix() + rest) == rest
  {
    var b := ProductPathPrefix() + rest;
    assert b[0] != FeaturePathPrefix()[0];
    assert ProductPathPrefix() <= b;
    ReplaceLeading(ProductPathPrefix(), rest, "");
    ReplaceAbsent(rest, ProductPathPrefix(), "");
  }

  /** `replace` removes every occurrence of the prefix, not only the leading one. */
  lemma StripRemovesEveryOccurrence()
    ensures StripBranchType("feature/a/feature/b") == "a/b"
  {
    var p := FeaturePathPrefix();
    var s1 := "a/" + p + "b";
    var s2 := "/" + p + "b";
    assert "feature/a/feature/b" == p + s1;
    assert BranchType(p + s1) == Some(FeatureBranch);
    ReplaceLeading(p, s1, "");
    assert s1[0] == 'a' && s1[1..] == s2 && !(p <= s1);
    assert s2[0] == '/' && s2[1..] == p + "b" && !(p <= s2);
    ReplaceLeading(p, "b", "");
    assert ReplaceAll(s2, p, "") == "/b";
  }

}
