/**
 * The node tree of src/model/node.rs: every node has a name, a role, metadata (whether
 * a native branch stands behind it) and children keyed by name. Roles decide which
 * children a node admits; inserting a path creates the missing nodes hop by hop and
 * reports a role error without undoing the nodes it already created.
 */
module RoleTree {
  import opened Wrappers
  import opened Strings
  import opened QualifiedPaths

  const FeaturesPrefix: string := "feature"
  const ProductsPrefix: string := "product"

  datatype NodeType = Feature | Product | FeatureRoot | ProductRoot | Area | VirtualRoot | Tag

  datatype WrongNodeTypeError = WrongNodeTypeError(msg: string)

  datatype NodeMetadata = NodeMetadata(hasBranch: bool)

  /** `NodeMetadata::default()`: no branch. */
  const DefaultMetadata: NodeMetadata := NodeMetadata(false)

  datatype Node = Node(name: string, nodeType: NodeType, metadata: NodeMetadata, children: seq<Node>)

  /**
   * `build_child_from_name`: the role of a child called `name`. Only an area looks at
   * the name (a string prefix test); a tag admits no children.
   */
  function BuildChildFromName(t: NodeType, name: string): (r: Result<NodeType, WrongNodeTypeError>)
    ensures r.Err? <==> t.Tag? || (t.Area? && !(FeaturesPrefix <= name) && !(ProductsPrefix <= name))
  {
    match t
    case Feature => Ok(Feature)
    case Product => Ok(Product)
    case FeatureRoot => Ok(Feature)
    case ProductRoot => Ok(Product)
    case VirtualRoot => Ok(Area)
    case Area =>
      if FeaturesPrefix <= name then Ok(FeatureRoot)
      else if ProductsPrefix <= name then Ok(ProductRoot)
      else Err(WrongNodeTypeError("'" + name + "' is no valid child of an area node. Valid childs include: feature, product"))
    case Tag => Err(WrongNodeTypeError("Tags cannot have children"))
  }

  /** Depth of a role in the hierarchy: virtual root, area, the two roots, the rest. */
  function Level(t: NodeType): nat
  {
    match t
    case VirtualRoot => 0
    case Area => 1
    case FeatureRoot => 2
    case ProductRoot => 2
    case Feature => 3
    case Product => 3
    case Tag => 3
  }

  /** Which of the two trees below an area a role belongs to. */
  predicate FeatureSide(t: NodeType) { t.FeatureRoot? || t.Feature? }
  predicate ProductSide(t: NodeType) { t.ProductRoot? || t.Product? }

  // ------------------------------------------------------------------ children

  function ChildIndex(children: seq<Node>, name: string): (r: Option<nat>)
    ensures r.Some? ==> r.value < |children| && children[r.value].name == name
    ensures r.Some? ==> forall j | 0 <= j < r.value :: children[j].name != name
    ensures r.None? <==> forall j | 0 <= j < |children| :: children[j].name != name
  {
    if |children| == 0 then None
    else if children[0].name == name then Some(0)
    else match ChildIndex(children[1..], name)
      case None => None
      case Some(i) => Some(i + 1)
  }

  lemma FirstMatch(children: seq<Node>, name: string, k: nat)
    requires k < |children| && children[k].name == name
    requires forall j | 0 <= j < k :: children[j].name != name
    ensures ChildIndex(children, name) == Some(k)
  {
    var r := ChildIndex(children, name);
    assert r.Some?;
  }

  /** `get_child(name)`: the entry of the child map under `name`. */
  function GetChild(n: Node, name: string): (r: Option<Node>)
    ensures r.Some? <==> exists j | 0 <= j < |n.children| :: n.children[j].name == name
    ensures r.Some? ==> r.value in n.children && r.value.name == name
  {
    match ChildIndex(n.children, name)
    case None => None
    case Some(i) => Some(n.children[i])
  }

  /** Children are keyed by name: no two share a name, at any level. */
  predicate Keyed(n: Node)
  {
    && (forall i, j | 0 <= i < j < |n.children| :: n.children[i].name != n.children[j].name)
    && (forall i | 0 <= i < |n.children| :: Keyed(n.children[i]))
  }

  /** The child map insert: an entry of the same name is replaced, otherwise one is added. */
  function Put(n: Node, child: Node): (r: Node)
    ensures r.name == n.name && r.nodeType == n.nodeType && r.metadata == n.metadata
    ensures ChildIndex(n.children, child.name).Some? ==>
      r.children == n.children[ChildIndex(n.children, child.name).value := child]
    ensures ChildIndex(n.children, child.name).None? ==> r.children == n.children + [child]
    ensures GetChild(r, child.name) == Some(child)
  {
    match ChildIndex(n.children, child.name)
    case Some(i) =>
      var r := n.(children := n.children[i := child]);
      FirstMatch(r.children, child.name, i);
      r
    case None =>
      var r := n.(children := n.children + [child]);
      FirstMatch(r.children, child.name, |n.children|);
      r
  }

  /** `update_metadata(metadata)`: only the metadata changes. */
  function UpdateMetadata(n: Node, metadata: NodeMetadata): (r: Node)
    ensures r.metadata == metadata
    ensures r.name == n.name && r.nodeType == n.nodeType && r.children == n.children
  {
    n.(metadata := metadata)
  }

  /**
   * `add_child(name, metadata, is_tag)`: a childless node with the given metadata, a
   * tag if asked for, otherwise with the role the parent admits; it takes the place of
   * an existing child of that name.
   */
  function AddChild(n: Node, name: string, metadata: NodeMetadata, isTag: bool): (r: Result<Node, WrongNodeTypeError>)
    ensures r.Err? <==> !isTag && BuildChildFromName(n.nodeType, name).Err?
    ensures r.Ok? ==> GetChild(r.value, name).Some?
    ensures r.Ok? ==>
      var role := if isTag then Tag else BuildChildFromName(n.nodeType, name).value;
      r.value == Put(n, Node(name, role, metadata, []))
  {
    var role :- if isTag then Ok(Tag) else BuildChildFromName(n.nodeType, name);
    Ok(Put(n, Node(name, role, metadata, [])))
  }

  /** The child name `insert_node_path` uses for a segment: `path.get(0)` rendered. */
  function SegmentName(seg: string): string
  {
    Trim(Remove(Remove(seg, CheckoutMarker), Escape))
  }

  /**
   * `insert_node_path(path, metadata, is_tag)`: the final hop replaces the metadata of
   * an existing child (keeping its role and children) or adds the child with the given
   * metadata and tag flag; an earlier hop reuses an existing child as it is, or adds a
   * non-tag child without branch, and continues below it. The updated tree is returned
   * with the outcome; on a role error the nodes added before it stay.
   */
  function InsertNodePath(n: Node, path: QualifiedPath, metadata: NodeMetadata, isTag: bool)
    : (r: (Node, Result<(), WrongNodeTypeError>))
    requires |path| >= 1
    ensures r.0.name == n.name && r.0.nodeType == n.nodeType
    ensures |path| == 1 ==> r.0.metadata == n.metadata
    decreases |path|
  {
    var name := SegmentName(path[0]);  // `path.get(0).unwrap().to_string()`, see SegmentNameOfGet
    if |path| == 1 then
      match ChildIndex(n.children, name)
      case Some(i) => (n.(children := n.children[i := UpdateMetadata(n.children[i], metadata)]), Ok(()))
      case None =>
        match AddChild(n, name, metadata, isTag)
        case Ok(added) => (added, Ok(()))
        case Err(e) => (n, Err(e))
    else
      match ChildIndex(n.children, name)
      case Some(i) =>
        var (next, status) := InsertNodePath(n.children[i], TrimNLeft(path, 1), metadata, isTag);
        (n.(children := n.children[i := next]), status)
      case None =>
        // `add_child(name, default, false)?` appends the child, which is then descended into
        match BuildChildFromName(n.nodeType, name)
        case Err(e) => (n, Err(e))
        case Ok(role) =>
          var (next, status) := InsertNodePath(Node(name, role, DefaultMetadata, []), TrimNLeft(path, 1), metadata, isTag);
          (n.(children := n.children + [next]), status)
  }

  /** `as_qualified_path()`: the node's name read as a qualified path. */
  function AsQualifiedPath(n: Node): (r: QualifiedPath)
    ensures |r| >= 1
  {
    FromString(n.name)
  }

  /** The node reached from `n` by looking up each name in turn. */
  function Find(n: Node, names: seq<string>): Option<Node>
    decreases |names|
  {
    if |names| == 0 then Some(n)
    else match GetChild(n, names[0])
      case None => None
      case Some(c) => Find(c, names[1..])
  }

  /** The child names a path is inserted under, one per segment. */
  function SegmentNames(path: seq<string>): (r: seq<string>)
    ensures |r| == |path|
    ensures forall i | 0 <= i < |path| :: r[i] == SegmentName(path[i])
  {
    if |path| == 0 then [] else [SegmentName(path[0])] + SegmentNames(path[1..])
  }

  /** Every child's role is one its parent admits, or Tag. */
  predicate RolesConsistent(n: Node)
  {
    forall i | 0 <= i < |n.children| ::
      && (n.children[i].nodeType.Tag? || BuildChildFromName(n.nodeType, n.children[i].name) == Ok(n.children[i].nodeType))
      && RolesConsistent(n.children[i])
  }

  // ------------------------------------------------------------------ role properties

  /**
   * A child's role lies one level below its parent's (the leaves stay at the last level)
   * and on the parent's side; only an area looks at the name, by string prefix.
   */
  lemma ChildRoleDescends(t: NodeType, name: string)
    requires BuildChildFromName(t, name).Ok?
    ensures var c := BuildChildFromName(t, name).value;
      && Level(c) == (if Level(t) < 3 then Level(t) + 1 else 3)
      && (FeatureSide(t) ==> c == Feature)
      && (ProductSide(t) ==> c == Product)
      && (t.Area? ==> (c == FeatureRoot <==> FeaturesPrefix <= name))
      && c != Tag
  {
  }

  /** Apart from an area, a role admits the same child role whatever the name. */
  lemma NameIrrelevant(t: NodeType, a: string, b: string)
    requires !t.Area?
    ensures BuildChildFromName(t, a) == BuildChildFromName(t, b) || t.Tag?
    ensures t.Tag? ==> BuildChildFromName(t, a).Err? && BuildChildFromName(t, b).Err?
  {
  }

  /** The area rule is a prefix test: `features` and `featureA` are feature roots too. */
  lemma AreaRuleIsPrefix()
    ensures BuildChildFromName(Area, "featureA") == Ok(FeatureRoot)
    ensures BuildChildFromName(Area, "products") == Ok(ProductRoot)
    ensures BuildChildFromName(Area, "docs").Err?
  {
    assert FeaturesPrefix <= "featureA";
    assert ProductsPrefix <= "products" && "products"[0] != FeaturesPrefix[0];
    assert !(FeaturesPrefix <= "docs") && !(ProductsPrefix <= "docs");
  }

  // ------------------------------------------------------------------ insert properties

  lemma SegmentNameOfGet(path: QualifiedPath)
    requires |path| >= 1
    ensures ToString(Get(path, 0).value) == SegmentName(path[0])
  {
  }

  /**
   * The child the final hop leaves under `name`: the existing one with the new metadata,
   * or a new one with the metadata, as a tag or with the admitted role.
   */
  function Arrival(n: Node, name: string, metadata: NodeMetadata, isTag: bool): (r: Result<Node, WrongNodeTypeError>)
    ensures r.Err? <==> GetChild(n, name).None? && !isTag && BuildChildFromName(n.nodeType, name).Err?
    ensures r.Ok? ==> r.value.name == name && r.value.metadata == metadata
  {
    match GetChild(n, name)
    case Some(c) => Ok(UpdateMetadata(c, metadata))
    case None =>
      var role :- if isTag then Ok(Tag) else BuildChildFromName(n.nodeType, name);
      Ok(Node(name, role, metadata, []))
  }

  /**
   * The child an earlier hop descends into: the existing one as it is, or a new
   * childless non-tag one without branch, with the admitted role.
   */
  function Descent(n: Node, name: string): (r: Result<Node, WrongNodeTypeError>)
    ensures r.Err? <==> GetChild(n, name).None? && BuildChildFromName(n.nodeType, name).Err?
    ensures r.Ok? ==> r.value.name == name
  {
    match GetChild(n, name)
    case Some(c) => Ok(c)
    case None =>
      var role :- BuildChildFromName(n.nodeType, name);
      Ok(Node(name, role, DefaultMetadata, []))
  }

  /**
   * The final hop is one child map insert of the arriving child, or no change at all
   * when the role is refused.
   */
  lemma FinalHop(n: Node, path: QualifiedPath, metadata: NodeMetadata, isTag: bool)
    requires |path| == 1
    ensures var arrival := Arrival(n, SegmentName(path[0]), metadata, isTag);
      && (arrival.Ok? ==> InsertNodePath(n, path, metadata, isTag) == (Put(n, arrival.value), Ok(())))
      && (arrival.Err? ==> InsertNodePath(n, path, metadata, isTag) == (n, Err(arrival.error)))
  {
  }

  /**
   * An earlier hop inserts the rest of the path below the descended-into child and puts
   * the result back into the child map, passing on the outcome; a refused role changes
   * nothing.
   */
  lemma InnerHop(n: Node, path: QualifiedPath, metadata: NodeMetadata, isTag: bool)
    requires |path| >= 2
    ensures var descent := Descent(n, SegmentName(path[0]));
      && (descent.Ok? ==>
            var inner := InsertNodePath(descent.value, path[1..], metadata, isTag);
            InsertNodePath(n, path, metadata, isTag) == (Put(n, inner.0), inner.1))
      && (descent.Err? ==> InsertNodePath(n, path, metadata, isTag) == (n, Err(descent.error)))
  {
    var name := SegmentName(path[0]);
    match ChildIndex(n.children, name)
    case Some(i) =>
    case None =>
  }

  /**
   * No rollback: a node an earlier hop creates stays in the tree even when the insertion
   * fails further down.
   */
  lemma NoRollback(n: Node, path: QualifiedPath, metadata: NodeMetadata, isTag: bool)
    requires |path| >= 2
    requires GetChild(n, SegmentName(path[0])).None?
    requires BuildChildFromName(n.nodeType, SegmentName(path[0])).Ok?
    ensures GetChild(InsertNodePath(n, path, metadata, isTag).0, SegmentName(path[0])).Some?
    ensures GetChild(InsertNodePath(n, path, metadata, isTag).0, SegmentName(path[0])).value.nodeType
      == BuildChildFromName(n.nodeType, SegmentName(path[0])).value
  {
    InnerHop(n, path, metadata, isTag);
  }

  /**
   * After a successful insertion, the path's segment names lead from the node to a
   * node carrying the given metadata.
   */
  lemma {:induction false} InsertThenFind(n: Node, path: QualifiedPath, metadata: NodeMetadata, isTag: bool)
    requires |path| >= 1 && InsertNodePath(n, path, metadata, isTag).1.Ok?
    ensures Find(InsertNodePath(n, path, metadata, isTag).0, SegmentNames(path)).Some?
    ensures Find(InsertNodePath(n, path, metadata, isTag).0, SegmentNames(path)).value.metadata == metadata
    decreases |path|
  {
    var name := SegmentName(path[0]);
    var names := SegmentNames(path);
    assert names[0] == name && names[1..] == SegmentNames(path[1..]);
    var r := InsertNodePath(n, path, metadata, isTag).0;
    if |path| == 1 {
      FinalHop(n, path, metadata, isTag);
      var arrival := Arrival(n, name, metadata, isTag).value;
      assert GetChild(r, name) == Some(arrival);
      assert Find(r, names) == Find(arrival, names[1..]);
    } else {
      InnerHop(n, path, metadata, isTag);
      var c := Descent(n, name).value;
      var inner := InsertNodePath(c, path[1..], metadata, isTag);
      InsertThenFind(c, path[1..], metadata, isTag);
      assert GetChild(r, name) == Some(inner.0);
      assert Find(r, names) == Find(inner.0, names[1..]);
    }
  }

  lemma KeyedPut(n: Node, c: Node)
    requires Keyed(n) && Keyed(c)
    ensures Keyed(Put(n, c))
  {
    var r := Put(n, c);
    match ChildIndex(n.children, c.name)
    case Some(i) =>
      assert forall j | 0 <= j < |r.children| :: r.children[j].name == n.children[j].name;
    case None =>
      assert forall j | 0 <= j < |n.children| :: r.children[j] == n.children[j];
  }

  lemma KeyedChild(n: Node, c: Node)
    requires Keyed(n) && c in n.children
    ensures Keyed(c)
  {
    var i :| 0 <= i < |n.children| && n.children[i] == c;
  }

  /** Insertion keeps children keyed by name, whatever its outcome. */
  lemma {:induction false} InsertKeepsKeys(n: Node, path: QualifiedPath, metadata: NodeMetadata, isTag: bool)
    requires |path| >= 1 && Keyed(n)
    ensures Keyed(InsertNodePath(n, path, metadata, isTag).0)
    decreases |path|
  {
    var name := SegmentName(path[0]);
    var existing := GetChild(n, name);
    if existing.Some? {
      KeyedChild(n, existing.value);
    }
    if |path| == 1 {
      FinalHop(n, path, metadata, isTag);
      var arrival := Arrival(n, name, metadata, isTag);
      if arrival.Ok? {
        KeyedPut(n, arrival.value);
      }
    } else {
      InnerHop(n, path, metadata, isTag);
      var descent := Descent(n, name);
      if descent.Ok? {
        InsertKeepsKeys(descent.value, path[1..], metadata, isTag);
        KeyedPut(n, InsertNodePath(descent.value, path[1..], metadata, isTag).0);
      }
    }
  }

  /** A child whose role its parent admits (or a tag). */
  predicate Admitted(parent: NodeType, c: Node)
  {
    c.nodeType.Tag? || BuildChildFromName(parent, c.name) == Ok(c.nodeType)
  }

  lemma RolesPut(n: Node, c: Node)
    requires RolesConsistent(n) && RolesConsistent(c) && Admitted(n.nodeType, c)
    ensures RolesConsistent(Put(n, c))
  {
  }

  lemma RolesChild(n: Node, c: Node)
    requires RolesConsistent(n) && c in n.children
    ensures RolesConsistent(c) && Admitted(n.nodeType, c)
  {
    var i :| 0 <= i < |n.children| && n.children[i] == c;
  }

  /** Insertion never gives a node a child its role does not admit (tags aside). */
  lemma {:induction false} InsertKeepsRoles(n: Node, path: QualifiedPath, metadata: NodeMetadata, isTag: bool)
    requires |path| >= 1 && RolesConsistent(n)
    ensures RolesConsistent(InsertNodePath(n, path, metadata, isTag).0)
    decreases |path|
  {
    var name := SegmentName(path[0]);
    var existing := GetChild(n, name);
    if existing.Some? {
      RolesChild(n, existing.value);
    }
    if |path| == 1 {
      FinalHop(n, path, metadata, isTag);
      var arrival := Arrival(n, name, metadata, isTag);
      if arrival.Ok? {
        RolesPut(n, arrival.value);
      }
    } else {
      InnerHop(n, path, metadata, isTag);
      var descent := Descent(n, name);
      if descent.Ok? {
        InsertKeepsRoles(descent.value, path[1..], metadata, isTag);
        RolesPut(n, InsertNodePath(descent.value, path[1..], metadata, isTag).0);
      }
    }
  }

  // ------------------------------------------------------------------ collecting paths

  /** The paths stored under category `t`, none when `t` has no entry. */
  function Lookup<T>(m: map<T, seq<QualifiedPath>>, t: T): seq<QualifiedPath>
  {
    if t in m then m[t] else []
  }

  function Elements<T>(s: seq<T>): set<T>
  {
    set t | t in s
  }

  /**
   * The categories loop of `get_qualified_paths_by` for one child: in category order,
   * each category's entry is extended by the child's path if the predicate holds, and
   * created (possibly empty) if it was missing.
   */
  function AddCategories<T>(acc: map<T, seq<QualifiedPath>>, cats: seq<T>, pred: (T, Node) -> bool,
                            child: Node, path: QualifiedPath): (r: map<T, seq<QualifiedPath>>)
    ensures r.Keys == acc.Keys + Elements(cats)
    decreases |cats|
  {
    if |cats| == 0 then acc
    else
      var t := cats[0];
      var toInsert := if pred(t, child) then [path] else [];
      AddCategories(acc[t := Lookup(acc, t) + toInsert], cats[1..], pred, child, path)
  }

  /**
   * The merge loop: the entry of every category in `keys` is extended by the paths the
   * child's own call returned for it (`get_mut(&t).unwrap()`: the entry must exist).
   */
  function Extend<T>(acc: map<T, seq<QualifiedPath>>, from: map<T, seq<QualifiedPath>>, keys: set<T>)
    : (r: map<T, seq<QualifiedPath>>)
    requires keys <= from.Keys && keys <= acc.Keys
    ensures r.Keys == acc.Keys
  {
    map t | t in acc.Keys :: if t in keys then acc[t] + from[t] else acc[t]
  }

  /**
   * `get_qualified_paths_by(initial, predicate, categories)` from the i-th child on,
   * with the map built so far: each child's path is the initial path plus the child's
   * own qualified form `pathOf(child)`; it is filed under the categories whose predicate
   * holds for the child, then the child's own descendants are collected below that path
   * and merged in. The source's qualified form is `AsQualifiedPath`.
   */
  function PathsFrom<T>(n: Node, i: nat, initial: QualifiedPath, pred: (T, Node) -> bool, cats: seq<T>,
                        acc: map<T, seq<QualifiedPath>>, pathOf: Node -> QualifiedPath)
    : (r: map<T, seq<QualifiedPath>>)
    requires i <= |n.children|
    ensures r.Keys == acc.Keys + (if i < |n.children| then Elements(cats) else {})
    decreases n, |n.children| - i
  {
    if i == |n.children| then acc
    else
      var child := n.children[i];
      var path := Add(initial, pathOf(child));
      var withChild := AddCategories(acc, cats, pred, child, path);
      var fromChild := PathsFrom(child, 0, path, pred, cats, map[], pathOf);
      PathsFrom(n, i + 1, initial, pred, cats, Extend(withChild, fromChild, fromChild.Keys), pathOf)
  }

  function QualifiedPathsBy<T>(n: Node, initial: QualifiedPath, pred: (T, Node) -> bool, cats: seq<T>)
    : map<T, seq<QualifiedPath>>
  {
    PathsFrom(n, 0, initial, pred, cats, map[], AsQualifiedPath)
  }

  /** One turn of the loop over the children. */
  lemma PathsFromStep<T>(n: Node, i: nat, initial: QualifiedPath, pred: (T, Node) -> bool, cats: seq<T>,
                         acc: map<T, seq<QualifiedPath>>, pathOf: Node -> QualifiedPath)
    requires i < |n.children|
    ensures var child := n.children[i];
      var path := Add(initial, pathOf(child));
      var withChild := AddCategories(acc, cats, pred, child, path);
      var fromChild := PathsFrom(child, 0, path, pred, cats, map[], pathOf);
      && fromChild.Keys <= withChild.Keys
      && PathsFrom(n, i, initial, pred, cats, acc, pathOf)
         == PathsFrom(n, i + 1, initial, pred, cats, Extend(withChild, fromChild, fromChild.Keys), pathOf)
  {
  }

  /** The categories loop of `get_qualified_paths_by` for one child. */
  method FileUnderCategories<T>(result: map<T, seq<QualifiedPath>>, cats: seq<T>, pred: (T, Node) -> bool,
                                child: Node, path: QualifiedPath)
    returns (r: map<T, seq<QualifiedPath>>)
    ensures r == AddCategories(result, cats, pred, child, path)
  {
    r := result;
    var j := 0;
    while j < |cats|
      invariant j <= |cats|
      invariant AddCategories(r, cats[j..], pred, child, path) == AddCategories(result, cats, pred, child, path)
    {
      var t := cats[j];
      var toInsert := if pred(t, child) then [path] else [];
      assert cats[j..][0] == t && cats[j..][1..] == cats[j + 1..];
      ghost var next := r[t := Lookup(r, t) + toInsert];
      assert AddCategories(r, cats[j..], pred, child, path) == AddCategories(next, cats[j + 1..], pred, child, path);
      if t in r {
        r := r[t := r[t] + toInsert];
      } else {
        assert [] + toInsert == toInsert;
        r := r[t := toInsert];
      }
      j := j + 1;
    }
  }

  /** The loop merging a child's result into the map; every key must already be present. */
  method MergeChild<T>(result: map<T, seq<QualifiedPath>>, fromChild: map<T, seq<QualifiedPath>>)
    returns (r: map<T, seq<QualifiedPath>>)
    requires fromChild.Keys <= result.Keys
    ensures r == Extend(result, fromChild, fromChild.Keys)
  {
    r := result;
    var keys := fromChild.Keys;
    while keys != {}
      invariant keys <= fromChild.Keys
      invariant r == Extend(result, fromChild, fromChild.Keys - keys)
      decreases keys
    {
      var t :| t in keys;
      r := r[t := r[t] + fromChild[t]];
      keys := keys - {t};
    }
  }

  /** `get_qualified_paths_by(initial, predicate, categories)`. */
  method GetQualifiedPathsBy<T>(n: Node, initial: QualifiedPath, pred: (T, Node) -> bool, cats: seq<T>)
    returns (result: map<T, seq<QualifiedPath>>)
    ensures result == QualifiedPathsBy(n, initial, pred, cats)
  {
    result := CollectPaths(n, initial, pred, cats, AsQualifiedPath);
  }

  /**
   * The loop of `get_qualified_paths_by` over the children, recursing into each child;
   * `pathOf` forms a child's own path (the source's `as_qualified_path`).
   */
  method CollectPaths<T>(n: Node, initial: QualifiedPath, pred: (T, Node) -> bool, cats: seq<T>,
                         pathOf: Node -> QualifiedPath)
    returns (result: map<T, seq<QualifiedPath>>)
    ensures result == PathsFrom(n, 0, initial, pred, cats, map[], pathOf)
    decreases n
  {
    result := map[];
    var i := 0;
    while i < |n.children|
      invariant i <= |n.children|
      invariant PathsFrom(n, i, initial, pred, cats, result, pathOf) == PathsFrom(n, 0, initial, pred, cats, map[], pathOf)
    {
      var child := n.children[i];
      var path := Add(initial, pathOf(child));
      PathsFromStep(n, i, initial, pred, cats, result, pathOf);
      result := FileUnderCategories(result, cats, pred, child, path);
      var fromChild := CollectPaths(child, path, pred, cats, pathOf);
      result := MergeChild(result, fromChild);
      i := i + 1;
    }
  }

  // ------------------------------------------------ what get_qualified_paths_by collects

  /**
   * Every descendant of `n` from the i-th child on, at any depth, in pre-order, each with
   * its path: the initial path plus the own paths of the nodes leading down to it.
   */
  function DescendantsFrom(n: Node, i: nat, initial: QualifiedPath, pathOf: Node -> QualifiedPath)
    : seq<(QualifiedPath, Node)>
    requires i <= |n.children|
    decreases n, |n.children| - i
  {
    if i == |n.children| then []
    else
      var child := n.children[i];
      var path := Add(initial, pathOf(child));
      [(path, child)] + DescendantsFrom(child, 0, path, pathOf) + DescendantsFrom(n, i + 1, initial, pathOf)
  }

  /** The paths of the listed nodes for which `pred(t, node)` holds, in order. */
  function Matching<T>(ds: seq<(QualifiedPath, Node)>, pred: (T, Node) -> bool, t: T): (r: seq<QualifiedPath>)
    ensures |r| <= |ds|
    ensures forall p | p in r :: exists d | d in ds :: d.0 == p && pred(t, d.1)
  {
    if |ds| == 0 then []
    else (if pred(t, ds[0].1) then [ds[0].0] else []) + Matching(ds[1..], pred, t)
  }

  predicate Distinct<T(==)>(s: seq<T>)
  {
    forall i, j | 0 <= i < j < |s| :: s[i] != s[j]
  }

  lemma {:induction false} MatchingAppend<T>(a: seq<(QualifiedPath, Node)>, b: seq<(QualifiedPath, Node)>,
                                             pred: (T, Node) -> bool, t: T)
    ensures Matching(a + b, pred, t) == Matching(a, pred, t) + Matching(b, pred, t)
  {
    if |a| > 0 {
      assert (a + b)[1..] == a[1..] + b;
      MatchingAppend(a[1..], b, pred, t);
    } else {
      assert a + b == b;
    }
  }

  /** Unfolding the pre-order listing at one child, filtered by the predicate. */
  lemma MatchingStep<T>(n: Node, i: nat, initial: QualifiedPath, pathOf: Node -> QualifiedPath,
                        pred: (T, Node) -> bool, t: T)
    requires i < |n.children|
    ensures var child := n.children[i];
      var path := Add(initial, pathOf(child));
      Matching(DescendantsFrom(n, i, initial, pathOf), pred, t)
      == (if pred(t, child) then [path] else [])
         + Matching(DescendantsFrom(child, 0, path, pathOf), pred, t)
         + Matching(DescendantsFrom(n, i + 1, initial, pathOf), pred, t)
  {
    var child := n.children[i];
    var path := Add(initial, pathOf(child));
    var below := DescendantsFrom(child, 0, path, pathOf);
    var after := DescendantsFrom(n, i + 1, initial, pathOf);
    assert DescendantsFrom(n, i, initial, pathOf) == [(path, child)] + below + after;
    MatchingAppend([(path, child)] + below, after, pred, t);
    MatchingAppend([(path, child)], below, pred, t);
  }

  /** The categories loop adds the child's path to category t once, exactly when the predicate holds. */
  lemma {:induction false} AddCategoriesEffect<T>(acc: map<T, seq<QualifiedPath>>, cats: seq<T>,
                                                  pred: (T, Node) -> bool, child: Node, path: QualifiedPath, t: T)
    requires Distinct(cats)
    ensures Lookup(AddCategories(acc, cats, pred, child, path), t)
         == Lookup(acc, t) + (if t in cats && pred(t, child) then [path] else [])
    decreases |cats|
  {
    if |cats| > 0 {
      var next := acc[cats[0] := Lookup(acc, cats[0]) + (if pred(cats[0], child) then [path] else [])];
      assert Distinct(cats[1..]);
      AddCategoriesEffect(next, cats[1..], pred, child, path, t);
      if t == cats[0] {
        assert t !in cats[1..];
      } else {
        assert t in cats <==> t in cats[1..];
      }
    }
  }

  lemma ExtendEffect<T>(acc: map<T, seq<QualifiedPath>>, from: map<T, seq<QualifiedPath>>, t: T)
    requires from.Keys <= acc.Keys
    ensures Lookup(Extend(acc, from, from.Keys), t) == Lookup(acc, t) + Lookup(from, t)
  {
  }

  /**
   * The collection loop from the i-th child on adds to category t exactly the paths of the
   * matching descendants, in pre-order, and adds nothing to other categories.
   */
  /** Regrouping a concatenation of four lists. */
  lemma Regroup(a: seq<QualifiedPath>, b: seq<QualifiedPath>, c: seq<QualifiedPath>, d: seq<QualifiedPath>)
    ensures (a + b) + ([] + c) + d == a + b + c + d == a + (b + c + d)
  {
    assert [] + c == c;
  }

  lemma {:induction false} PathsFromEffect<T>(n: Node, i: nat, initial: QualifiedPath, pred: (T, Node) -> bool,
                                              cats: seq<T>, acc: map<T, seq<QualifiedPath>>,
                                              pathOf: Node -> QualifiedPath, t: T)
    requires i <= |n.children| && Distinct(cats) && t in cats
    ensures Lookup(PathsFrom(n, i, initial, pred, cats, acc, pathOf), t)
         == Lookup(acc, t) + Matching(DescendantsFrom(n, i, initial, pathOf), pred, t)
    decreases n, |n.children| - i
  {
    if i < |n.children| {
      var child := n.children[i];
      var path := Add(initial, pathOf(child));
      var withChild := AddCategories(acc, cats, pred, child, path);
      var fromChild := PathsFrom(child, 0, path, pred, cats, map[], pathOf);
      PathsFromStep(n, i, initial, pred, cats, acc, pathOf);
      var next := Extend(withChild, fromChild, fromChild.Keys);
      var own := if pred(t, child) then [path] else [];
      calc {
        Lookup(PathsFrom(n, i, initial, pred, cats, acc, pathOf), t);
        Lookup(PathsFrom(n, i + 1, initial, pred, cats, next, pathOf), t);
        { PathsFromEffect(n, i + 1, initial, pred, cats, next, pathOf, t); }
        Lookup(next, t) + Matching(DescendantsFrom(n, i + 1, initial, pathOf), pred, t);
        { ExtendEffect(withChild, fromChild, t); }
        Lookup(withChild, t) + Lookup(fromChild, t) + Matching(DescendantsFrom(n, i + 1, initial, pathOf), pred, t);
        { AddCategoriesEffect(acc, cats, pred, child, path, t);
          PathsFromEffect(child, 0, path, pred, cats, map[], pathOf, t);
          Regroup(Lookup(acc, t), own, Matching(DescendantsFrom(child, 0, path, pathOf), pred, t),
                  Matching(DescendantsFrom(n, i + 1, initial, pathOf), pred, t)); }
        Lookup(acc, t) + own + Matching(DescendantsFrom(child, 0, path, pathOf), pred, t)
          + Matching(DescendantsFrom(n, i + 1, initial, pathOf), pred, t);
        { MatchingStep(n, i, initial, pathOf, pred, t);
          Regroup(Lookup(acc, t), own, Matching(DescendantsFrom(child, 0, path, pathOf), pred, t),
                  Matching(DescendantsFrom(n, i + 1, initial, pathOf), pred, t)); }
        Lookup(acc, t) + Matching(DescendantsFrom(n, i, initial, pathOf), pred, t);
      }
    }
  }

  /** The descendants of `n` with the source's own paths. */
  function Descendants(n: Node, initial: QualifiedPath): seq<(QualifiedPath, Node)>
  {
    DescendantsFrom(n, 0, initial, AsQualifiedPath)
  }

  /**
   * `get_qualified_paths_by`: with distinct categories, the map has a key for every
   * category exactly when the node has a child, and category t lists the path of every
   * descendant, at any depth, for which `pred(t, descendant)` holds, in pre-order.
   */
  lemma QualifiedPathsByCollects<T>(n: Node, initial: QualifiedPath, pred: (T, Node) -> bool, cats: seq<T>, t: T)
    requires Distinct(cats) && t in cats && |n.children| > 0
    ensures QualifiedPathsBy(n, initial, pred, cats).Keys == Elements(cats)
    ensures QualifiedPathsBy(n, initial, pred, cats)[t] == Matching(Descendants(n, initial), pred, t)
  {
    var r := QualifiedPathsBy(n, initial, pred, cats);
    var m := Matching(Descendants(n, initial), pred, t);
    assert r.Keys == Elements(cats);
    PathsFromEffect(n, 0, initial, pred, cats, map[], AsQualifiedPath, t);
    assert Lookup(r, t) == [] + m;
    assert [] + m == m;
  }

  /** A childless node yields the empty map. */
  lemma QualifiedPathsOfLeaf<T>(n: Node, initial: QualifiedPath, pred: (T, Node) -> bool, cats: seq<T>)
    requires |n.children| == 0
    ensures QualifiedPathsBy(n, initial, pred, cats) == map[]
  {
  }
}
