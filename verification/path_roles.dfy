/**
 * The role rules of src/git/model/node_type.rs: the same roles as the split-path
 * iteration, asked with a qualified path; a feature root records the paths themselves.
 * `NodeType::build_child_from_path` dispatches to the wrapped role. A panic is an `Err`.
 */
module PathRoles {
  import opened Wrappers
  import opened QualifiedPaths

  const FeaturePrefix: string := "feature"
  const ProductPrefix: string := "product"

  datatype NodeType =
    | Feature
    | Product
    | FeatureRoot(featuresWithBranches: seq<QualifiedPath>)
    | ProductRoot
    | Area
    | VirtualRoot

  /**
   * `Area::build_child_from_path`: `first().unwrap()` fails on the empty path; a first
   * segment equal to the feature prefix gives a feature root with an empty record, one
   * equal to the product prefix a product root, anything else panics.
   */
  function AreaChild(path: QualifiedPath): (r: Result<NodeType, Panic>)
    ensures r.Ok? <==> First(path).Some? && First(path).value in {FeaturePrefix, ProductPrefix}
    ensures r.Ok? && path[0] == FeaturePrefix ==> r.value == FeatureRoot([])
    ensures r.Ok? && path[0] == ProductPrefix ==> r.value == ProductRoot
  {
    match First(path)
    case None => Err(Panic("called `Option::unwrap()` on a `None` value"))
    case Some(first) =>
      if first == FeaturePrefix then Ok(FeatureRoot([]))
      else if first == ProductPrefix then Ok(ProductRoot)
      else Err(Panic("'" + first + "' is no valid child of an area node"))
  }

  /**
   * `NodeType::build_child_from_path`: the child's role and the asking role afterwards.
   * A feature root appends a copy of the path to its record; the others keep no state.
   */
  function BuildChildFromPath(t: NodeType, path: QualifiedPath): (r: Result<(NodeType, NodeType), Panic>)
    ensures r.Err? <==> t.Area? && AreaChild(path).Err?
    ensures r.Ok? && t.Area? ==> r.value.0 == AreaChild(path).value
    ensures r.Ok? && !t.FeatureRoot? ==> r.value.1 == t
    ensures r.Ok? && t.FeatureRoot? ==> r.value.1 == FeatureRoot(t.featuresWithBranches + [path])
  {
    match t
    case Feature => Ok((Feature, t))
    case Product => Ok((Product, t))
    case FeatureRoot(record) => Ok((Feature, FeatureRoot(record + [path])))
    case ProductRoot => Ok((Product, t))
    case Area =>
      var child :- AreaChild(path);
      Ok((child, t))
    case VirtualRoot => Ok((Area, t))
  }

  // ------------------------------------------------------------------ properties

  /**
   * Children of Feature and FeatureRoot are Feature, of Product and ProductRoot are
   * Product, of VirtualRoot Area; whatever the path, the empty one included.
   */
  lemma ChildRoles(t: NodeType, path: QualifiedPath)
    ensures (t.Feature? || t.FeatureRoot?) ==> BuildChildFromPath(t, path).Ok? && BuildChildFromPath(t, path).value.0 == Feature
    ensures (t.Product? || t.ProductRoot?) ==> BuildChildFromPath(t, path).Ok? && BuildChildFromPath(t, path).value.0 == Product
    ensures t.VirtualRoot? ==> BuildChildFromPath(t, path).Ok? && BuildChildFromPath(t, path).value.0 == Area
  {
  }

  /** Under an area, the first segment decides by equality; an empty path fails. */
  lemma AreaChildByFirstSegment(path: QualifiedPath)
    ensures |path| == 0 ==> BuildChildFromPath(Area, path).Err?
    ensures |path| > 0 ==>
      (BuildChildFromPath(Area, path) == Ok((FeatureRoot([]), Area)) <==> path[0] == FeaturePrefix)
    ensures |path| > 0 ==>
      (BuildChildFromPath(Area, path) == Ok((ProductRoot, Area)) <==> path[0] == ProductPrefix)
  {
  }

  /** The role after asking `t` once per path of `calls`, in order. */
  function AfterCalls(t: NodeType, calls: seq<QualifiedPath>): Result<NodeType, Panic>
  {
    if |calls| == 0 then Ok(t)
    else
      var before :- AfterCalls(t, calls[..|calls| - 1]);
      var answer :- BuildChildFromPath(before, calls[|calls| - 1]);
      Ok(answer.1)
  }

  /**
   * `iter_features_with_branches` of a feature root built by an area yields the paths it
   * was asked with, in call order.
   */
  lemma {:induction false} FeatureRootRecordsCalls(calls: seq<QualifiedPath>)
    ensures AfterCalls(FeatureRoot([]), calls) == Ok(FeatureRoot(calls))
  {
    if |calls| > 0 {
      var init := calls[..|calls| - 1];
      FeatureRootRecordsCalls(init);
      assert init + [calls[|calls| - 1]] == calls;
    }
  }

  /** Only a feature root changes state. */
  lemma {:induction false} OnlyFeatureRootChanges(t: NodeType, calls: seq<QualifiedPath>)
    requires !t.FeatureRoot?
    ensures AfterCalls(t, calls).Ok? ==> AfterCalls(t, calls) == Ok(t)
  {
    if |calls| > 0 {
      OnlyFeatureRootChanges(t, calls[..|calls| - 1]);
    }
  }
}
