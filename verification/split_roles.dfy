/**
 * The role rules of src/git/model/feature.rs, area.rs, product.rs and root.rs: every
 * role says which role a child created below it gets, given the split path being
 * inserted (the child's own name first). Only a feature root has state: it records the
 * joined path of every child request it answers. A panic is an `Err`.
 */
module SplitRoles {
  import opened Wrappers
  import opened Strings

  const FeaturePrefix: string := "feature"
  const ProductPrefix: string := "product"

  datatype NodeType =
    | Feature
    | Product
    | FeatureRoot(featuresWithBranches: seq<string>)
    | ProductRoot
    | Area
    | VirtualRoot

  /** `FeatureRoot::new()`: a feature root that has recorded nothing yet. */
  const NewFeatureRoot: NodeType := FeatureRoot([])

  /**
   * `FeatureRoot::build_child_from_path`: the child is a Feature, and the joined path
   * is appended to the record. Returns the child's role and the updated record.
   */
  function FeatureRootChild(featuresWithBranches: seq<string>, path: seq<string>): (r: (NodeType, seq<string>))
    ensures r.0 == Feature
    ensures |r.1| == |featuresWithBranches| + 1 && r.1[..|featuresWithBranches|] == featuresWithBranches
    ensures r.1[|featuresWithBranches|] == Join(path, '/')
  {
    (Feature, featuresWithBranches + [Join(path, '/')])
  }

  /** `Feature`, `ProductRoot`, `Product` and `VirtualRoot`: fixed child roles, no state. */
  function StatelessChild(t: NodeType): (r: NodeType)
    requires t.Feature? || t.ProductRoot? || t.Product? || t.VirtualRoot?
    ensures t.Feature? ==> r == Feature
    ensures t.ProductRoot? || t.Product? ==> r == Product
    ensures t.VirtualRoot? ==> r == Area
  {
    match t
    case Feature => Feature
    case ProductRoot => Product
    case Product => Product
    case VirtualRoot => Area
  }

  /**
   * `Area::build_child_from_path`: the first segment must equal the feature prefix
   * (a fresh feature root) or the product prefix (a product root); an empty path fails
   * the `unwrap`, and any other first segment panics.
   */
  function AreaChild(path: seq<string>): (r: Result<NodeType, Panic>)
    ensures r.Ok? <==> |path| > 0 && (path[0] == FeaturePrefix || path[0] == ProductPrefix)
    ensures r.Ok? && path[0] == FeaturePrefix ==> r.value == NewFeatureRoot
    ensures r.Ok? && path[0] == ProductPrefix ==> r.value == ProductRoot
  {
    if |path| == 0 then Err(Panic("called `Option::unwrap()` on a `None` value"))
    else if path[0] == FeaturePrefix then Ok(NewFeatureRoot)
    else if path[0] == ProductPrefix then Ok(ProductRoot)
    else Err(Panic("'" + path[0] + "' is no valid child of an area node"))
  }

  /**
   * The dispatch over the roles as the older node of src/git/model/node.rs applies it:
   * the child's role and the role of the asking node afterwards.
   */
  function BuildChildFromPath(t: NodeType, path: seq<string>): (r: Result<(NodeType, NodeType), Panic>)
    ensures r.Err? <==> t.Area? && AreaChild(path).Err?
    ensures r.Ok? && !t.FeatureRoot? ==> r.value.1 == t
    ensures r.Ok? && t.FeatureRoot? ==>
      r.value.1 == FeatureRoot(t.featuresWithBranches + [Join(path, '/')])
  {
    match t
    case FeatureRoot(record) =>
      var (child, record') := FeatureRootChild(record, path);
      Ok((child, FeatureRoot(record')))
    case Area =>
      var child :- AreaChild(path);
      Ok((child, Area))
    case _ => Ok((StatelessChild(t), t))
  }

  // ------------------------------------------------------------------ properties

  /**
   * Every role except Area answers, for every path (the empty one included), with a
   * child role that does not depend on the path.
   */
  lemma ChildRoleIgnoresPath(t: NodeType, p: seq<string>, q: seq<string>)
    requires !t.Area?
    ensures BuildChildFromPath(t, p).Ok? && BuildChildFromPath(t, q).Ok?
    ensures BuildChildFromPath(t, p).value.0 == BuildChildFromPath(t, q).value.0
    ensures BuildChildFromPath(t, p).value.0 ==
      match t
      case Feature => Feature
      case FeatureRoot(_) => Feature
      case Product => Product
      case ProductRoot => Product
      case VirtualRoot => Area
  {
  }

  /** Only the first segment matters to an area, and an empty path fails. */
  lemma AreaInspectsFirstSegmentOnly(p: seq<string>, q: seq<string>)
    requires |p| > 0 && |q| > 0 && p[0] == q[0]
    ensures AreaChild(p) == AreaChild(q)
    ensures AreaChild([]).Err?
  {
  }

  /** The area rule is an equality test: a longer name starting with `feature` fails. */
  lemma AreaRuleIsEquality()
    ensures AreaChild(["feature"]) == Ok(FeatureRoot([]))
    ensures AreaChild(["product", "x"]) == Ok(ProductRoot)
    ensures AreaChild(["features"]).Err?
    ensures AreaChild(["featureA", "x"]).Err?
  {
  }

  /** The role after asking `t` for a child once per path of `calls`, in order. */
  function AfterCalls(t: NodeType, calls: seq<seq<string>>): Result<NodeType, Panic>
  {
    if |calls| == 0 then Ok(t)
    else
      var before :- AfterCalls(t, calls[..|calls| - 1]);
      var answer :- BuildChildFromPath(before, calls[|calls| - 1]);
      Ok(answer.1)
  }

  /**
   * A fresh feature root asked k times records the k joined paths, in call order, and
   * `iter_features_with_branches` yields them in that order.
   */
  lemma {:induction false} FeatureRootRecordsInOrder(calls: seq<seq<string>>)
    ensures AfterCalls(NewFeatureRoot, calls).Ok?
    ensures AfterCalls(NewFeatureRoot, calls).value.FeatureRoot?
    ensures |AfterCalls(NewFeatureRoot, calls).value.featuresWithBranches| == |calls|
    ensures forall i | 0 <= i < |calls| ::
      AfterCalls(NewFeatureRoot, calls).value.featuresWithBranches[i] == Join(calls[i], '/')
  {
    if |calls| > 0 {
      var init := calls[..|calls| - 1];
      FeatureRootRecordsInOrder(init);
      var before := AfterCalls(NewFeatureRoot, init).value;
      assert AfterCalls(NewFeatureRoot, calls)
        == Ok(FeatureRoot(before.featuresWithBranches + [Join(calls[|calls| - 1], '/')]));
    }
  }

  /** Every other role keeps its state through any sequence of successful requests. */
  lemma {:induction false} StatelessRolesStay(t: NodeType, calls: seq<seq<string>>)
    requires !t.FeatureRoot?
    ensures AfterCalls(t, calls).Ok? ==> AfterCalls(t, calls) == Ok(t)
  {
    if |calls| > 0 {
      StatelessRolesStay(t, calls[..|calls| - 1]);
    }
  }
}
