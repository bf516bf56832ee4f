/**
 * `NodePath` of src/model/node_path.rs: a chain of nodes of the role tree, starting at
 * an area and growing downwards one child at a time. The Rust type parameter only
 * records the role of the last node; here it is recovered by `Concretize`.
 */
module NodePaths {
  import opened Wrappers
  import opened Strings
  import opened QualifiedPaths
  import opened RoleTree

  datatype NodePath = NodePath(nodes: seq<Node>)

  /** The chain is never empty. */
  predicate Valid(np: NodePath)
  {
    |np.nodes| >= 1
  }

  /** `NodePath::new(area)`: the one-node chain. */
  function New(area: Node): (r: NodePath)
    ensures Valid(r) && r.nodes[0] == area && |r.nodes| == 1
  {
    NodePath([area])
  }

  /** `get_node`: the last node of the chain. */
  function GetNode(np: NodePath): Node
    requires Valid(np)
  {
    np.nodes[|np.nodes| - 1]
  }

  /** `NodePathType`: a chain together with the role of its last node. */
  datatype NodePathType =
    | FeaturePath(path: NodePath)
    | FeatureRootPath(path: NodePath)
    | ProductPath(path: NodePath)
    | ProductRootPath(path: NodePath)
    | AreaPath(path: NodePath)
    | VirtualRootPath(path: NodePath)
    | TagPath(path: NodePath)

  /** The role a variant of `NodePathType` stands for. */
  function Kind(c: NodePathType): NodeType
  {
    match c
    case FeaturePath(_) => Feature
    case FeatureRootPath(_) => FeatureRoot
    case ProductPath(_) => Product
    case ProductRootPath(_) => ProductRoot
    case AreaPath(_) => Area
    case VirtualRootPath(_) => VirtualRoot
    case TagPath(_) => Tag
  }

  /** `concretize`: the variant chosen by the role of the last node. */
  function Concretize(np: NodePath): (r: NodePathType)
    requires Valid(np)
  {
    match GetNode(np).nodeType
    case Feature => FeaturePath(np)
    case FeatureRoot => FeatureRootPath(np)
    case Product => ProductPath(np)
    case ProductRoot => ProductRootPath(np)
    case Area => AreaPath(np)
    case VirtualRoot => VirtualRootPath(np)
    case Tag => TagPath(np)
  }

  /** The successive children named by `names`, from `n` down; None at the first missing one. */
  function Descend(n: Node, names: seq<string>): (r: Option<seq<Node>>)
    ensures r.Some? ==> |r.value| == |names|
    decreases |names|
  {
    if |names| == 0 then Some([])
    else match GetChild(n, names[0])
      case None => None
      case Some(c) =>
        match Descend(c, names[1..])
        case None => None
        case Some(rest) => Some([c] + rest)
  }

  /** `xs` put in front of a descent, if there is one. */
  function Prepend(xs: seq<Node>, o: Option<seq<Node>>): Option<seq<Node>>
  {
    match o
    case None => None
    case Some(ys) => Some(xs + ys)
  }

  /** What `to(path)` returns: the chain extended by the nodes named by `path`. */
  function Reach(np: NodePath, path: QualifiedPath): Option<NodePath>
    requires Valid(np)
  {
    match Descend(GetNode(np), path)
    case None => None
    case Some(ns) => Some(NodePath(np.nodes + ns))
  }

  /** `to(path)`: the loop pushing child after child onto the chain. */
  method To(np: NodePath, path: QualifiedPath) returns (r: Option<NodePath>)
    requires Valid(np)
    ensures r == Reach(np, path)
  {
    var nodes := np.nodes;
    var current := GetNode(np);
    ghost var added: seq<Node> := [];
    PrependNothing(Descend(current, path));
    var i := 0;
    while i < |path|
      invariant 0 <= i <= |path|
      invariant nodes == np.nodes + added && current == nodes[|nodes| - 1]
      invariant Descend(GetNode(np), path) == Prepend(added, Descend(current, path[i..]))
    {
      DescendOne(current, path[i..]);
      assert path[i..][0] == path[i] && path[i..][1..] == path[i + 1..];
      match GetChild(current, path[i])
      case None =>
        return None;
      case Some(c) =>
        PrependTwice(added, [c], Descend(c, path[i + 1..]));
        nodes := nodes + [c];
        added := added + [c];
        current := c;
      i := i + 1;
    }
    assert added + [] == added;
    return Some(NodePath(nodes));
  }

  lemma PrependNothing(o: Option<seq<Node>>)
    ensures Prepend([], o) == o
  {
    if o.Some? {
      assert [] + o.value == o.value;
    }
  }

  lemma PrependTwice(xs: seq<Node>, ys: seq<Node>, o: Option<seq<Node>>)
    ensures Prepend(xs, Prepend(ys, o)) == Prepend(xs + ys, o)
  {
    if o.Some? {
      assert xs + (ys + o.value) == xs + ys + o.value;
    }
  }

  /** One hop of a walk. */
  lemma DescendOne(n: Node, names: seq<string>)
    requires |names| > 0
    ensures Descend(n, names) == match GetChild(n, names[0])
      case None => None
      case Some(c) => Prepend([c], Descend(c, names[1..]))
  {
  }

  /** A one-segment walk: the chain plus the child of that name, if there is one. */
  lemma ReachOne(np: NodePath, name: string)
    requires Valid(np) && Separator !in name
    ensures Reach(np, [name]) == match GetChild(GetNode(np), name)
      case None => None
      case Some(c) => Some(NodePath(np.nodes + [c]))
  {
    assert [name][1..] == [];
    match GetChild(GetNode(np), name)
    case None =>
    case Some(c) =>
      assert Descend(c, []) == Some([]);
      assert Descend(GetNode(np), [name]) == Some([c] + []);
      assert [c] + [] == [c];
  }

  /** `to_parent_area`: the one-node chain of the first node. */
  function ToParentArea(np: NodePath): (r: NodePath)
    requires Valid(np)
    ensures Valid(r) && GetNode(r) == np.nodes[0]
  {
    New(np.nodes[0])
  }

  /** The qualified path of a list of nodes: each name pushed in turn. */
  function PathOf(nodes: seq<Node>): QualifiedPath
  {
    if |nodes| == 0 then [] else Push(PathOf(nodes[..|nodes| - 1]), nodes[|nodes| - 1].name)
  }

  /** `get_qualified_path`: the loop pushing the name of every node of the chain. */
  method GetQualifiedPath(np: NodePath) returns (path: QualifiedPath)
    ensures path == PathOf(np.nodes)
  {
    path := [];
    var i := 0;
    while i < |np.nodes|
      invariant 0 <= i <= |np.nodes|
      invariant path == PathOf(np.nodes[..i])
    {
      assert np.nodes[..i + 1][..i] == np.nodes[..i];
      path := Push(path, np.nodes[i].name);
      i := i + 1;
    }
    assert np.nodes[..i] == np.nodes;
  }

  /** `get_path_to_feature_root`: the chain's path plus `feature`, with no lookup. */
  function GetPathToFeatureRoot(np: NodePath): QualifiedPath
  {
    Add(PathOf(np.nodes), FromStr(FeaturesPrefix))
  }

  /** `get_path_to_product_root`: the chain's path plus `product`, with no lookup. */
  function GetPathToProductRoot(np: NodePath): QualifiedPath
  {
    Add(PathOf(np.nodes), FromStr(ProductsPrefix))
  }

  /** The message of `unreachable!()`. */
  const Unreachable: string := "internal error: entered unreachable code"

  /**
   * The shared body of `to_feature_root` and `to_product_root`: walk to the child called
   * `prefix` and downcast the chain to the `wanted` root role; any other role of that
   * child hits `unreachable!()`.
   */
  method ToRoot(np: NodePath, prefix: string, wanted: NodeType) returns (r: Result<Option<NodePath>, Panic>)
    requires Valid(np) && Separator !in prefix
    ensures match GetChild(GetNode(np), prefix)
      case None => r == Ok(None)
      case Some(c) => if c.nodeType == wanted then r == Ok(Some(NodePath(np.nodes + [c]))) else r == Err(Panic(Unreachable))
  {
    PushSegment([], prefix);
    ReachOne(np, prefix);
    var reached := To(np, FromStr(prefix));
    match reached
    case None =>
      r := Ok(None);
    case Some(p) =>
      assert GetNode(p) == GetChild(GetNode(np), prefix).value;
      var concrete := Concretize(p);
      if Kind(concrete) == wanted {
        r := Ok(Some(concrete.path));
      } else {
        r := Err(Panic(Unreachable));
      }
  }

  /**
   * `to_feature_root`: None when the last node has no child called `feature`; the chain
   * one longer when it has one and that child is a feature root; a panic otherwise.
   */
  method ToFeatureRoot(np: NodePath) returns (r: Result<Option<NodePath>, Panic>)
    requires Valid(np)
    ensures match GetChild(GetNode(np), FeaturesPrefix)
      case None => r == Ok(None)
      case Some(c) =>
        if c.nodeType.FeatureRoot? then r == Ok(Some(NodePath(np.nodes + [c]))) else r == Err(Panic(Unreachable))
  {
    r := ToRoot(np, FeaturesPrefix, FeatureRoot);
  }

  /**
   * `to_product_root`: None when the last node has no child called `product`; the chain
   * one longer when it has one and that child is a product root; a panic otherwise.
   */
  method ToProductRoot(np: NodePath) returns (r: Result<Option<NodePath>, Panic>)
    requires Valid(np)
    ensures match GetChild(GetNode(np), ProductsPrefix)
      case None => r == Ok(None)
      case Some(c) =>
        if c.nodeType.ProductRoot? then r == Ok(Some(NodePath(np.nodes + [c]))) else r == Err(Panic(Unreachable))
  {
    r := ToRoot(np, ProductsPrefix, ProductRoot);
  }

  /** The qualified forms of the children with role Tag, in order. */
  function TagPaths(children: seq<Node>): (r: seq<QualifiedPath>)
    ensures forall c | c in children && c.nodeType.Tag? :: AsQualifiedPath(c) in r
    ensures forall x | x in r :: exists c | c in children :: c.nodeType.Tag? && AsQualifiedPath(c) == x
  {
    if |children| == 0 then []
    else
      var rest := TagPaths(children[1..]);
      var head := if children[0].nodeType.Tag? then [AsQualifiedPath(children[0])] else [];
      assert forall c | c in children :: c == children[0] || c in children[1..];
      assert forall x | x in head + rest :: exists c | c in children :: c.nodeType.Tag? && AsQualifiedPath(c) == x by {
        forall x | x in head + rest
          ensures exists c | c in children :: c.nodeType.Tag? && AsQualifiedPath(c) == x
        {
          if x in head {
            assert children[0] in children;
          } else {
            var c :| c in children[1..] && c.nodeType.Tag? && AsQualifiedPath(c) == x;
            assert c in children;
          }
        }
      }
      head + rest
  }

  /** `get_tags`: the qualified forms of the direct children of the last node that are tags. */
  function GetTags(np: NodePath): seq<QualifiedPath>
    requires Valid(np)
  {
    TagPaths(GetNode(np).children)
  }

  /** The `check` closure of `get_child_paths_by_branch`: has a branch exactly when `flag`. */
  predicate BranchCheck(flag: bool, n: Node)
  {
    if flag then n.metadata.hasBranch else !n.metadata.hasBranch
  }

  /** `get_child_paths_by_branch`: the descendants' paths collected under `true` and `false`. */
  method GetChildPathsByBranch(np: NodePath) returns (r: map<bool, seq<QualifiedPath>>)
    requires Valid(np)
    ensures r == QualifiedPathsBy(GetNode(np), [], BranchCheck, [true, false])
  {
    r := GetQualifiedPathsBy(GetNode(np), [], BranchCheck, [true, false]);
  }

  /** The paths of a list of descendants. */
  function PathsOf(ds: seq<(QualifiedPath, Node)>): (r: seq<QualifiedPath>)
    ensures |r| == |ds|
  {
    if |ds| == 0 then [] else [ds[0].0] + PathsOf(ds[1..])
  }

  // ------------------------------------------------------------------ properties

  /** `FEATURES_PREFIX` and `PRODUCTS_PREFIX` read as paths are single segments. */
  lemma PrefixIsOneSegment(prefix: string)
    requires prefix == FeaturesPrefix || prefix == ProductsPrefix
    ensures FromStr(prefix) == [prefix]
  {
    PushSegment([], prefix);
  }

  /** `concretize` picks the variant of the last node's role and keeps the chain. */
  lemma ConcretizeKeepsChain(np: NodePath)
    requires Valid(np)
    ensures Kind(Concretize(np)) == GetNode(np).nodeType
    ensures Concretize(np).path == np
  {
  }

  /**
   * `to(path)` only appends: a successful walk is the old chain plus one node per
   * segment, each the child of the node before it with that segment's name.
   */
  lemma {:induction false} DescendSteps(n: Node, names: seq<string>)
    requires Descend(n, names).Some?
    ensures var ns := Descend(n, names).value;
      forall k | 0 <= k < |names| :: GetChild(if k == 0 then n else ns[k - 1], names[k]) == Some(ns[k])
    decreases |names|
  {
    if |names| > 0 {
      var c := GetChild(n, names[0]).value;
      DescendSteps(c, names[1..]);
      var ns := Descend(n, names).value;
      assert ns == [c] + Descend(c, names[1..]).value;
    }
  }

  /** A walk fails exactly when some segment has no child of that name (`Find` fails). */
  lemma {:induction false} DescendFind(n: Node, names: seq<string>)
    ensures Descend(n, names).Some? <==> Find(n, names).Some?
    ensures Descend(n, names).Some? && |names| > 0 ==>
      Find(n, names) == Some(Descend(n, names).value[|names| - 1])
    decreases |names|
  {
    if |names| > 0 {
      match GetChild(n, names[0])
      case None =>
      case Some(c) =>
        DescendFind(c, names[1..]);
    }
  }

  /** A chain stays non-empty, grows by one node per segment and keeps its first node. */
  lemma ReachExtends(np: NodePath, path: QualifiedPath)
    requires Valid(np)
    ensures Reach(np, path).Some? <==> Find(GetNode(np), path).Some?
    ensures Reach(np, path).Some? ==>
      var r := Reach(np, path).value;
      && Valid(r) && |r.nodes| == |np.nodes| + |path| && r.nodes[..|np.nodes|] == np.nodes
      && ToParentArea(r) == ToParentArea(np)
  {
    DescendFind(GetNode(np), path);
    if Reach(np, path).Some? {
      var r := Reach(np, path).value;
      assert r.nodes[..|np.nodes|] == np.nodes;
    }
  }

  /** With names free of `/`, `get_qualified_path` is the list of names, one per node. */
  lemma {:induction false} PathOfPlainNames(nodes: seq<Node>)
    requires forall k | 0 <= k < |nodes| :: Separator !in nodes[k].name
    ensures |PathOf(nodes)| == |nodes|
    ensures forall k | 0 <= k < |nodes| :: PathOf(nodes)[k] == nodes[k].name
  {
    if |nodes| > 0 {
      var init := nodes[..|nodes| - 1];
      PathOfPlainNames(init);
      PushSegment(PathOf(init), nodes[|nodes| - 1].name);
    }
  }

  /** The paths to the two roots are the chain's path plus one segment. */
  lemma PathsToRoots(np: NodePath)
    ensures GetPathToFeatureRoot(np) == PathOf(np.nodes) + [FeaturesPrefix]
    ensures GetPathToProductRoot(np) == PathOf(np.nodes) + [ProductsPrefix]
  {
    PrefixIsOneSegment(FeaturesPrefix);
    PrefixIsOneSegment(ProductsPrefix);
  }

  /** Every descendant is listed under exactly one of `true` and `false`. */
  lemma {:induction false} BranchSplit(ds: seq<(QualifiedPath, Node)>)
    ensures multiset(Matching(ds, BranchCheck, true)) + multiset(Matching(ds, BranchCheck, false))
         == multiset(PathsOf(ds))
  {
    if |ds| > 0 {
      BranchSplit(ds[1..]);
    }
  }

  /**
   * `get_child_paths_by_branch`: below a node with children, `true` lists the paths of
   * the descendants with a branch, `false` those without, and together they hold every
   * descendant once.
   */
  lemma ChildPathsByBranch(np: NodePath)
    requires Valid(np) && |GetNode(np).children| > 0
    ensures var r := QualifiedPathsBy(GetNode(np), [], BranchCheck, [true, false]);
      var ds := Descendants(GetNode(np), []);
      && r.Keys == {true, false}
      && r[true] == Matching(ds, BranchCheck, true)
      && r[false] == Matching(ds, BranchCheck, false)
      && multiset(r[true]) + multiset(r[false]) == multiset(PathsOf(ds))
  {
    var cats := [true, false];
    assert Distinct(cats);
    assert Elements(cats) == {true, false};
    QualifiedPathsByCollects(GetNode(np), [], BranchCheck, cats, true);
    QualifiedPathsByCollects(GetNode(np), [], BranchCheck, cats, false);
    BranchSplit(Descendants(GetNode(np), []));
  }
}
