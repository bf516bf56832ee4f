/**
 * `TreeDataModel` of src/git/model/tree.rs: a role-free name tree under a root called
 * "", filled from native branch lines. The area nodes below the root are name nodes;
 * their own role behaviour is not part of this model.
 */
module TreeDataModel {
  import opened Wrappers
  import opened Strings
  import opened NameTree

  const FeaturesPrefix: string := "feature"
  const ProductsPrefix: string := "product"

  /** `feature_path_prefix()` and `product_path_prefix()`: the prefixes followed by `/`. */
  function FeaturePathPrefix(): (r: string)
    ensures |r| == |FeaturesPrefix| + 1 && r[..|FeaturesPrefix|] == FeaturesPrefix
    ensures r[|FeaturesPrefix|] == '/'
  {
    FeaturesPrefix + "/"
  }

  function ProductPathPrefix(): (r: string)
    ensures |r| == |ProductsPrefix| + 1 && r[..|ProductsPrefix|] == ProductsPrefix
    ensures r[|ProductsPrefix|] == '/'
  {
    ProductsPrefix + "/"
  }

  /** `transform_to_qualified_path(path)`: trimmed, then every `*` and `_` removed. */
  function TransformToQualifiedPath(path: string): (r: string)
    ensures '*' !in r && '_' !in r
    ensures forall x | x in r :: x in path
  {
    Remove(Remove(Trim(path), '*'), '_')
  }

  /** A native branch line with every `*` removed, then trimmed: the name git knows it by. */
  function WithoutStar(branch: string): string
  {
    Trim(Remove(branch, '*'))
  }

  /** The qualified form a native branch line is indexed and inserted under. */
  function Converted(branch: string): (r: string)
    ensures '*' !in r && '_' !in r
  {
    TransformToQualifiedPath(WithoutStar(branch))
  }

  /** The segments a native branch line is inserted as. */
  function BranchSegments(branch: string): (r: seq<string>)
    ensures |r| >= 1
  {
    Split(Converted(branch), '/')
  }

  class TreeDataModel {
    var node: NameNode

    /** `new()`: the empty tree under the root "". */
    constructor ()
      ensures node == New("")
    {
      node := New("");
    }

    /**
     * `insert_from_git_native_branch(branch)`: the line with `*` removed and trimmed,
     * transformed to its qualified form and split on `/`, is inserted below the root.
     */
    method InsertFromGitNativeBranch(branch: string)
      modifies this
      ensures node == InsertPath(old(node), BranchSegments(branch))
    {
      var withoutStar := WithoutStar(branch);
      var converted := TransformToQualifiedPath(withoutStar);
      node := InsertPath(node, Split(converted, '/'));
    }

    /** `get_area_node(name)`: a direct child of the root. */
    function GetAreaNode(name: string): (r: Option<NameNode>)
      reads this
      ensures r.Some? <==> exists j | 0 <= j < |node.children| :: node.children[j].name == name
      ensures r.Some? ==> r.value in node.children && r.value.name == name
    {
      GetChild(node, name)
    }
  }

  // ------------------------------------------------------------------ properties

  /**
   * The qualified form of a line is: trim, remove every `*`, remove every `_`; the
   * second star removal of `transform_to_qualified_path` never finds anything.
   */
  lemma QualifiedForm(branch: string)
    ensures Converted(branch) == Remove(Trim(Remove(branch, '*')), '_')
    ensures BranchSegments(branch) == Split(Remove(Trim(Remove(branch, '*')), '_'), '/')
  {
    var t := Trim(Trim(Remove(branch, '*')));
    assert '*' !in t;
    RemoveAbsent(t, '*');
    TrimIdempotent(Remove(branch, '*'));
  }

  /** The root keeps its name "" and every inserted line can be walked from it. */
  lemma InsertedLineIsReachable(root: NameNode, branch: string)
    ensures InsertPath(root, BranchSegments(branch)).name == root.name
    ensures Walk(InsertPath(root, BranchSegments(branch)), BranchSegments(branch)).Some?
  {
    InsertThenWalk(root, BranchSegments(branch));
  }

  /** An empty or blank line makes the root grow a child called "". */
  lemma BlankLineCreatesEmptyChild(root: NameNode, branch: string)
    requires forall i | 0 <= i < |branch| :: branch[i] == '*' || IsWhitespace(branch[i])
    ensures BranchSegments(branch) == [""]
    ensures GetChild(InsertPath(root, BranchSegments(branch)), "").Some?
  {
    var noStar := Remove(branch, '*');
    assert forall i | 0 <= i < |noStar| :: IsWhitespace(noStar[i]) by {
      forall i | 0 <= i < |noStar|
        ensures IsWhitespace(noStar[i])
      {
        assert noStar[i] in branch;
      }
    }
    AllWhitespaceTrimsToEmpty(noStar);
    InsertThenWalk(root, [""]);
  }

  lemma AllWhitespaceTrimsToEmpty(s: string)
    requires forall i | 0 <= i < |s| :: IsWhitespace(s[i])
    ensures Trim(s) == ""
  {
    if |s| > 0 {
      AllWhitespaceTrimsToEmpty(s[1..]);
    }
  }
}
