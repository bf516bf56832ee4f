/**
 * The earlier `NodePath` of src/git/model/node_path.rs, over the role-carrying nodes of
 * src/git/model/node.rs: the same non-empty chain, walked the same way, but without a
 * Tag role, and with the has-branch query answering one flag at a time. A node "has a
 * branch" when a native branch is recorded for it.
 */
module LegacyNodePaths {
  import opened Wrappers
  import opened QualifiedPaths
  import opened SplitRoles
  import opened BranchNode

  datatype NodePath = NodePath(nodes: seq<Node>)

  /** The chain is never empty. */
  predicate Valid(np: NodePath)
  {
    |np.nodes| >= 1
  }

  /** `NodePath::new(area)`: the one-node chain. */
  function New(area: Node): (r: NodePath)
    ensures Valid(r) && r.nodes[0] == area && |r.nodes| == 1
  {
    NodePath([area])
  }

  /** `get_node`: the last node of the chain. */
  function GetNode(np: NodePath): Node
    requires Valid(np)
  {
    np.nodes[|np.nodes| - 1]
  }

  /** `NodePathType`: six variants, one per role; there is no Tag. */
  datatype NodePathType =
    | FeaturePath(path: NodePath)
    | FeatureRootPath(path: NodePath)
    | ProductPath(path: NodePath)
    | ProductRootPath(path: NodePath)
    | AreaPath(path: NodePath)
    | VirtualRootPath(path: NodePath)

  /** Whether a variant stands for the given role (a feature root with any record). */
  predicate KindOf(c: NodePathType, t: NodeType)
  {
    match c
    case FeaturePath(_) => t.Feature?
    case FeatureRootPath(_) => t.FeatureRoot?
    case ProductPath(_) => t.Product?
    case ProductRootPath(_) => t.ProductRoot?
    case AreaPath(_) => t.Area?
    case VirtualRootPath(_) => t.VirtualRoot?
  }

  /** `concretize`: the variant chosen by the role of the last node. */
  function Concretize(np: NodePath): (r: NodePathType)
    requires Valid(np)
  {
    match GetNode(np).nodeType
    case Feature => FeaturePath(np)
    case FeatureRoot(_) => FeatureRootPath(np)
    case Product => ProductPath(np)
    case ProductRoot => ProductRootPath(np)
    case Area => AreaPath(np)
    case VirtualRoot => VirtualRootPath(np)
  }

  /** The successive children named by `names`, from `n` down; None at the first missing one. */
  function Descend(n: Node, names: seq<string>): (r: Option<seq<Node>>)
    ensures r.Some? ==> |r.value| == |names|
    decreases |names|
  {
    if |names| == 0 then Some([])
    else match GetChild(n, names[0])
      case None => None
      case Some(c) =>
        match Descend(c, names[1..])
        case None => None
        case Some(rest) => Some([c] + rest)
  }

  /** What `to(path)` returns: the chain extended by the nodes named by `path`. */
  function Reach(np: NodePath, path: QualifiedPath): Option<NodePath>
    requires Valid(np)
  {
    match Descend(GetNode(np), path)
    case None => None
    case Some(ns) => Some(NodePath(np.nodes + ns))
  }

  /** `xs` put in front of a descent, if there is one. */
  function Prepend(xs: seq<Node>, o: Option<seq<Node>>): Option<seq<Node>>
  {
    match o
    case None => None
    case Some(ys) => Some(xs + ys)
  }

  /** `to(path)`: the loop pushing child after child onto the chain. */
  method To(np: NodePath, path: QualifiedPath) returns (r: Option<NodePath>)
    requires Valid(np)
    ensures r == Reach(np, path)
  {
    var nodes := np.nodes;
    var current := GetNode(np);
    ghost var added: seq<Node> := [];
    PrependNothing(Descend(current, path));
    var i := 0;
    while i < |path|
      invariant 0 <= i <= |path|
      invariant nodes == np.nodes + added && current == nodes[|nodes| - 1]
      invariant Descend(GetNode(np), path) == Prepend(added, Descend(current, path[i..]))
    {
      DescendOne(current, path[i..]);
      assert path[i..][0] == path[i] && path[i..][1..] == path[i + 1..];
      match GetChild(current, path[i])
      case None =>
        return None;
      case Some(c) =>
        PrependTwice(added, [c], Descend(c, path[i + 1..]));
        nodes := nodes + [c];
        added := added + [c];
        current := c;
      i := i + 1;
    }
    assert added + [] == added;
    return Some(NodePath(nodes));
  }

  lemma PrependNothing(o: Option<seq<Node>>)
    ensures Prepend([], o) == o
  {
    if o.Some? {
      assert [] + o.value == o.value;
    }
  }

  lemma PrependTwice(xs: seq<Node>, ys: seq<Node>, o: Option<seq<Node>>)
    ensures Prepend(xs, Prepend(ys, o)) == Prepend(xs + ys, o)
  {
    if o.Some? {
      assert xs + (ys + o.value) == xs + ys + o.value;
    }
  }

  /** One hop of a walk. */
  lemma DescendOne(n: Node, names: seq<string>)
    requires |names| > 0
    ensures Descend(n, names) == match GetChild(n, names[0])
      case None => None
      case Some(c) => Prepend([c], Descend(c, names[1..]))
  {
  }

  /** `to_parent_area`: the one-node chain of the first node. */
  function ToParentArea(np: NodePath): (r: NodePath)
    requires Valid(np)
    ensures Valid(r) && GetNode(r) == np.nodes[0]
  {
    New(np.nodes[0])
  }

  /** The qualified path of a list of nodes: each name pushed in turn. */
  function PathOf(nodes: seq<Node>): QualifiedPath
  {
    if |nodes| == 0 then [] else Push(PathOf(nodes[..|nodes| - 1]), nodes[|nodes| - 1].name)
  }

  /** `get_qualified_path`: the loop pushing the name of every node of the chain. */
  method GetQualifiedPath(np: NodePath) returns (path: QualifiedPath)
    ensures path == PathOf(np.nodes)
  {
    path := [];
    var i := 0;
    while i < |np.nodes|
      invariant 0 <= i <= |np.nodes|
      invariant path == PathOf(np.nodes[..i])
    {
      assert np.nodes[..i + 1][..i] == np.nodes[..i];
      path := Push(path, np.nodes[i].name);
      i := i + 1;
    }
    assert np.nodes[..i] == np.nodes;
  }

  /** `get_path_to_feature_root`: the chain's path plus `feature`. */
  function GetPathToFeatureRoot(np: NodePath): QualifiedPath
  {
    Add(PathOf(np.nodes), FromStr(FeaturePrefix))
  }

  /** `get_path_to_product_root`: the chain's path plus `product`. */
  function GetPathToProductRoot(np: NodePath): QualifiedPath
  {
    Add(PathOf(np.nodes), FromStr(ProductPrefix))
  }

  /** The message of `unreachable!()`. */
  const Unreachable: string := "internal error: entered unreachable code"

  /** The role a root downcast asks for: a feature root, or else a product root. */
  predicate IsRoot(t: NodeType, feature: bool)
  {
    if feature then t.FeatureRoot? else t.ProductRoot?
  }

  /**
   * The shared body of `to_feature_root` and `to_product_root`: walk to the child called
   * `prefix` and downcast the chain to the root role; any other role hits `unreachable!()`.
   */
  method ToRoot(np: NodePath, prefix: string, feature: bool) returns (r: Result<Option<NodePath>, Panic>)
    requires Valid(np) && Separator !in prefix
    ensures match GetChild(GetNode(np), prefix)
      case None => r == Ok(None)
      case Some(c) => if IsRoot(c.nodeType, feature) then r == Ok(Some(NodePath(np.nodes + [c]))) else r == Err(Panic(Unreachable))
  {
    PushSegment([], prefix);
    ReachOne(np, prefix);
    var reached := To(np, FromStr(prefix));
    match reached
    case None =>
      r := Ok(None);
    case Some(p) =>
      assert GetNode(p) == GetChild(GetNode(np), prefix).value;
      var concrete := Concretize(p);
      if (feature && concrete.FeatureRootPath?) || (!feature && concrete.ProductRootPath?) {
        r := Ok(Some(concrete.path));
      } else {
        r := Err(Panic(Unreachable));
      }
  }

  /** `to_feature_root`: None iff the last node has no child called `feature`. */
  method ToFeatureRoot(np: NodePath) returns (r: Result<Option<NodePath>, Panic>)
    requires Valid(np)
    ensures match GetChild(GetNode(np), FeaturePrefix)
      case None => r == Ok(None)
      case Some(c) =>
        if c.nodeType.FeatureRoot? then r == Ok(Some(NodePath(np.nodes + [c]))) else r == Err(Panic(Unreachable))
  {
    r := ToRoot(np, FeaturePrefix, true);
  }

  /** `to_product_root`: None iff the last node has no child called `product`. */
  method ToProductRoot(np: NodePath) returns (r: Result<Option<NodePath>, Panic>)
    requires Valid(np)
    ensures match GetChild(GetNode(np), ProductPrefix)
      case None => r == Ok(None)
      case Some(c) =>
        if c.nodeType.ProductRoot? then r == Ok(Some(NodePath(np.nodes + [c]))) else r == Err(Panic(Unreachable))
  {
    r := ToRoot(np, ProductPrefix, false);
  }

  /**
   * The descendants of `n` from the i-th child on, at any depth, in pre-order, each with
   * its path below `initial` (the names down to it, pushed in turn).
   */
  function DescendantsFrom(n: Node, i: nat, initial: QualifiedPath): seq<(QualifiedPath, Node)>
    requires i <= |n.children|
    decreases n, |n.children| - i
  {
    if i == |n.children| then []
    else
      var child := n.children[i];
      var path := Push(initial, child.name);
      [(path, child)] + DescendantsFrom(child, 0, path) + DescendantsFrom(n, i + 1, initial)
  }

  /** The paths of the listed nodes whose has-branch equals `flag`, in order. */
  function WithBranch(ds: seq<(QualifiedPath, Node)>, flag: bool): (r: seq<QualifiedPath>)
    ensures |r| <= |ds|
  {
    if |ds| == 0 then []
    else (if ds[0].1.gitBranch.Some? == flag then [ds[0].0] else []) + WithBranch(ds[1..], flag)
  }

  /** All descendants of the chain's last node, with their paths below it. */
  function Below(np: NodePath): seq<(QualifiedPath, Node)>
    requires Valid(np)
  {
    DescendantsFrom(GetNode(np), 0, [])
  }

  /** `get_child_paths_by_branch(has_branch)`: the descendants' paths with that has-branch flag. */
  function GetChildPathsByBranch(np: NodePath, flag: bool): seq<QualifiedPath>
    requires Valid(np)
  {
    WithBranch(Below(np), flag)
  }

  /** The paths of a list of descendants. */
  function PathsOf(ds: seq<(QualifiedPath, Node)>): (r: seq<QualifiedPath>)
    ensures |r| == |ds|
  {
    if |ds| == 0 then [] else [ds[0].0] + PathsOf(ds[1..])
  }

  // ------------------------------------------------------------------ properties

  lemma OneSegment(prefix: string)
    requires prefix == FeaturePrefix || prefix == ProductPrefix
    ensures FromStr(prefix) == [prefix]
  {
    PushSegment([], prefix);
  }

  /** A one-segment walk: the chain plus the child of that name, if there is one. */
  lemma ReachOne(np: NodePath, name: string)
    requires Valid(np) && Separator !in name
    ensures Reach(np, [name]) == match GetChild(GetNode(np), name)
      case None => None
      case Some(c) => Some(NodePath(np.nodes + [c]))
  {
    assert [name][1..] == [];
    match GetChild(GetNode(np), name)
    case None =>
    case Some(c) =>
      assert Descend(c, []) == Some([]);
      assert Descend(GetNode(np), [name]) == Some([c] + []);
      assert [c] + [] == [c];
  }

  /** `concretize` picks the variant of the last node's role and keeps the chain. */
  lemma ConcretizeKeepsChain(np: NodePath)
    requires Valid(np)
    ensures KindOf(Concretize(np), GetNode(np).nodeType)
    ensures Concretize(np).path == np
  {
  }

  /** A walk fails exactly when some segment has no child of that name. */
  lemma {:induction false} DescendGetFromPath(n: Node, names: seq<string>)
    requires |names| > 0
    ensures Descend(n, names).Some? <==> GetFromPath(n, names).Some?
    ensures Descend(n, names).Some? ==> GetFromPath(n, names) == Some(Descend(n, names).value[|names| - 1])
    decreases |names|
  {
    match GetChild(n, names[0])
    case None =>
    case Some(c) =>
      if |names| == 1 {
        assert names[1..] == [];
        assert Descend(c, names[1..]) == Some([]);
      } else {
        DescendGetFromPath(c, names[1..]);
      }
  }

  /** A chain stays non-empty, grows by one node per segment and keeps its first node. */
  lemma ReachExtends(np: NodePath, path: QualifiedPath)
    requires Valid(np)
    ensures |path| > 0 ==> (Reach(np, path).Some? <==> GetFromPath(GetNode(np), path).Some?)
    ensures Reach(np, path).Some? ==>
      var r := Reach(np, path).value;
      && Valid(r) && |r.nodes| == |np.nodes| + |path| && r.nodes[..|np.nodes|] == np.nodes
      && ToParentArea(r) == ToParentArea(np)
  {
    if |path| > 0 {
      DescendGetFromPath(GetNode(np), path);
    }
    if Reach(np, path).Some? {
      var r := Reach(np, path).value;
      assert r.nodes[..|np.nodes|] == np.nodes;
    }
  }

  /** The paths to the two roots are the chain's path plus one segment. */
  lemma PathsToRoots(np: NodePath)
    ensures GetPathToFeatureRoot(np) == PathOf(np.nodes) + [FeaturePrefix]
    ensures GetPathToProductRoot(np) == PathOf(np.nodes) + [ProductPrefix]
  {
    OneSegment(FeaturePrefix);
    OneSegment(ProductPrefix);
  }

  /** A path is listed for `flag` exactly when some descendant with that flag has it. */
  lemma {:induction false} WithBranchExactly(ds: seq<(QualifiedPath, Node)>, flag: bool, p: QualifiedPath)
    ensures p in WithBranch(ds, flag) <==> exists k | 0 <= k < |ds| :: ds[k].0 == p && ds[k].1.gitBranch.Some? == flag
  {
    if |ds| > 0 {
      WithBranchExactly(ds[1..], flag, p);
      if exists k | 0 <= k < |ds| :: ds[k].0 == p && ds[k].1.gitBranch.Some? == flag {
        var k :| 0 <= k < |ds| && ds[k].0 == p && ds[k].1.gitBranch.Some? == flag;
        if k > 0 {
          assert ds[1..][k - 1] == ds[k];
        }
      }
      if exists k | 0 <= k < |ds[1..]| :: ds[1..][k].0 == p && ds[1..][k].1.gitBranch.Some? == flag {
        var k :| 0 <= k < |ds[1..]| && ds[1..][k].0 == p && ds[1..][k].1.gitBranch.Some? == flag;
        assert ds[k + 1] == ds[1..][k];
      }
    }
  }

  /** The two flags split the descendants: each is listed under exactly one of them. */
  lemma {:induction false} WithBranchSplits(ds: seq<(QualifiedPath, Node)>)
    ensures multiset(WithBranch(ds, true)) + multiset(WithBranch(ds, false)) == multiset(PathsOf(ds))
  {
    if |ds| > 0 {
      WithBranchSplits(ds[1..]);
    }
  }

  /**
   * `get_child_paths_by_branch(true)` and `(false)` together list every descendant of the
   * last node once, each under its own has-branch flag.
   */
  lemma ChildPathsByBranch(np: NodePath, flag: bool, p: QualifiedPath)
    requires Valid(np)
    ensures p in GetChildPathsByBranch(np, flag) <==>
      exists k | 0 <= k < |Below(np)| :: Below(np)[k].0 == p && Below(np)[k].1.gitBranch.Some? == flag
    ensures multiset(GetChildPathsByBranch(np, true)) + multiset(GetChildPathsByBranch(np, false))
         == multiset(PathsOf(Below(np)))
  {
    WithBranchExactly(Below(np), flag, p);
    WithBranchSplits(Below(np));
  }

}
