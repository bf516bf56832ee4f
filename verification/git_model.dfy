/**
 * The older branch index of src/git/model.rs: a name tree under the default branch,
 * a map from qualified path to the native branch first seen for it, and a map from a
 * feature's short name (its last segment) to every qualified path recorded for it.
 * The short-name map lets a user type `feature1` for `feature/root/feature1` as long as
 * no other recorded feature ends in the same segment.
 */
module GitModel {
  import opened Wrappers
  import opened Strings
  import opened NameTree
  import TreeDataModel
  import GitNode

  /** `NodeData`: a qualified path and the native branch it was read from. */
  datatype NodeData = NodeData(qualifiedPath: string, gitBranch: string)

  /** The native branch stored for a line: every `*` removed, nothing trimmed. */
  function StarStripped(branch: string): (r: string)
    ensures '*' !in r
  {
    Remove(branch, '*')
  }

  /** The qualified path of a line: every `*` and then every `_` removed, then trimmed. */
  function ConvertedBranch(branch: string): (r: string)
    ensures '*' !in r && '_' !in r
    ensures NoEdgeWhitespace(r)
  {
    Trim(Remove(StarStripped(branch), '_'))
  }

  /** The last `/`-separated segment: a feature's short name. */
  function LastSegment(path: string): (r: string)
    ensures '/' !in r
  {
    var segs := Split(path, '/');
    SplitPiecesHaveNoSeparator(path, '/');
    segs[|segs| - 1]
  }

  /** `SymNode::insert_qualified_path`: the `/`-split segments inserted into the name tree. */
  function InsertQualifiedPath(n: NameNode, qualifiedPath: string): (r: NameNode)
    ensures r.name == n.name
  {
    InsertPath(n, Split(qualifiedPath, '/'))
  }

  /** The paths recorded under a short name; none when it is not a key. */
  function Recorded(shortNames: map<string, seq<string>>, name: string): seq<string>
  {
    if name in shortNames then shortNames[name] else []
  }

  /** The short-name update: `converted` appended to the list of `featureName`, created if missing. */
  function RecordShortName(shortNames: map<string, seq<string>>, featureName: string, converted: string)
    : (r: map<string, seq<string>>)
    ensures r.Keys == shortNames.Keys + {featureName}
    ensures Recorded(r, featureName) == Recorded(shortNames, featureName) + [converted]
    ensures forall k | k in shortNames && k != featureName :: r[k] == shortNames[k]
  {
    if featureName !in shortNames then shortNames[featureName := [converted]]
    else shortNames[featureName := shortNames[featureName] + [converted]]
  }

  /** `get_long_name_from_short`: the recorded path when exactly one is recorded. */
  function LongNameOf(shortNames: map<string, seq<string>>, name: string): (r: Option<string>)
    ensures r.Some? <==> |Recorded(shortNames, name)| == 1
    ensures r.Some? ==> Recorded(shortNames, name) == [r.value]
  {
    if name !in shortNames then None
    else
      var longNames := shortNames[name];
      if |longNames| == 0 then None
      else if |longNames| == 1 then Some(longNames[0])
      else None
  }

  /** `get_short_feature_names`: the short names with exactly one recorded path. */
  function UniqueShortNames(shortNames: map<string, seq<string>>): (r: set<string>)
    ensures forall k :: k in r <==> LongNameOf(shortNames, k).Some?
  {
    set k | k in shortNames && |shortNames[k]| == 1
  }

  /**
   * Every short name has at least one recorded path, and every recorded path is an
   * indexed feature path ending in that short name.
   */
  predicate ShortNamesIndexed(shortNames: map<string, seq<string>>, nodeData: map<string, NodeData>)
  {
    && (forall k | k in shortNames :: |shortNames[k]| >= 1)
    && (forall k, p | k in shortNames && p in shortNames[k] ::
          p in nodeData && TreeDataModel.FeaturesPrefix <= p && LastSegment(p) == k)
  }

  /** Every index entry carries its own key as qualified path. */
  predicate SelfKeyed(nodeData: map<string, NodeData>)
  {
    forall q | q in nodeData :: nodeData[q].qualifiedPath == q
  }

  class BranchDataModel {
    var rootNode: NameNode
    var shortNames: map<string, seq<string>>
    var nodeData: map<string, NodeData>

    /**
     * Every short name has at least one recorded path; every recorded path is an indexed
     * feature path ending in that short name; every index entry carries its own key; the
     * tree's child names are unique.
     */
    predicate Valid()
      reads this
    {
      ShortNamesIndexed(shortNames, nodeData) && SelfKeyed(nodeData) && UniqueNames(rootNode)
    }

    /** `BranchDataModel::new(default_branch)`: the tree root is named after the default branch. */
    constructor (defaultBranch: string)
      ensures rootNode == New(defaultBranch) && shortNames == map[] && nodeData == map[]
      ensures Valid()
    {
      rootNode := New(defaultBranch);
      shortNames := map[];
      nodeData := map[];
    }

    /**
     * `insert_from_git_native_branch(branch)`: the first native branch seen for a
     * qualified path is kept; a feature path is appended to its short name's list (again
     * on every repetition); the path enters the tree unless it is the root's own name.
     */
    method InsertFromGitNativeBranch(branch: string)
      requires Valid()
      modifies this
      ensures Valid()
      ensures nodeData == if ConvertedBranch(branch) in old(nodeData) then old(nodeData)
        else old(nodeData)[ConvertedBranch(branch) := NodeData(ConvertedBranch(branch), StarStripped(branch))]
      ensures shortNames == if TreeDataModel.FeaturesPrefix <= ConvertedBranch(branch)
        then RecordShortName(old(shortNames), LastSegment(ConvertedBranch(branch)), ConvertedBranch(branch))
        else old(shortNames)
      ensures rootNode == if ConvertedBranch(branch) != old(rootNode).name
        then InsertQualifiedPath(old(rootNode), ConvertedBranch(branch))
        else old(rootNode)
      ensures GetGitBranch(ConvertedBranch(branch)) == if ConvertedBranch(branch) in old(nodeData)
        then old(GetGitBranch(ConvertedBranch(branch))) else Some(StarStripped(branch))
      ensures forall q | q != ConvertedBranch(branch) :: GetGitBranch(q) == old(GetGitBranch(q))
    {
      var withoutStar := StarStripped(branch);
      var convertedBranch := Trim(Remove(withoutStar, '_'));
      Record(convertedBranch, withoutStar, LastSegment(convertedBranch));
    }

    /** The three updates of `insert_from_git_native_branch` once the line is converted. */
    method Record(converted: string, withoutStar: string, featureName: string)
      requires Valid() && featureName == LastSegment(converted)
      modifies this
      ensures Valid()
      ensures nodeData == if converted in old(nodeData) then old(nodeData)
        else old(nodeData)[converted := NodeData(converted, withoutStar)]
      ensures shortNames == if TreeDataModel.FeaturesPrefix <= converted
        then RecordShortName(old(shortNames), featureName, converted)
        else old(shortNames)
      ensures rootNode == if converted != old(rootNode).name
        then InsertQualifiedPath(old(rootNode), converted)
        else old(rootNode)
      ensures GetGitBranch(converted) == if converted in old(nodeData)
        then old(GetGitBranch(converted)) else Some(withoutStar)
      ensures forall q | q != converted :: GetGitBranch(q) == old(GetGitBranch(q))
    {
      if converted !in nodeData {
        IndexingKeepsShortNames(shortNames, nodeData, converted, withoutStar);
        nodeData := nodeData[converted := NodeData(converted, withoutStar)];
      }
      if TreeDataModel.FeaturesPrefix <= converted {
        RecordingKeepsShortNames(shortNames, nodeData, featureName, converted);
        shortNames := RecordShortName(shortNames, featureName, converted);
      }
      if converted != rootNode.name {
        InsertQualifiedKeepsNamesUnique(rootNode, converted);
        rootNode := InsertQualifiedPath(rootNode, converted);
      }
    }

    /** `get_feature_root`: the root's child called `feature`. */
    function GetFeatureRoot(): (r: Option<NameNode>)
      reads this
      ensures r.Some? <==> exists j | 0 <= j < |rootNode.children| :: rootNode.children[j].name == TreeDataModel.FeaturesPrefix
      ensures r.Some? ==> r.value in rootNode.children && r.value.name == TreeDataModel.FeaturesPrefix
    {
      GetChild(rootNode, TreeDataModel.FeaturesPrefix)
    }

    /** `get_product_root`: the root's child called `product`. */
    function GetProductRoot(): (r: Option<NameNode>)
      reads this
      ensures r.Some? <==> exists j | 0 <= j < |rootNode.children| :: rootNode.children[j].name == TreeDataModel.ProductsPrefix
      ensures r.Some? ==> r.value in rootNode.children && r.value.name == TreeDataModel.ProductsPrefix
    {
      GetChild(rootNode, TreeDataModel.ProductsPrefix)
    }

    /**
     * `get_short_feature_names`: the short names that identify one feature. An empty list
     * would panic in the source; `Valid` rules it out.
     */
    function GetShortFeatureNames(): (r: set<string>)
      reads this
      requires Valid()
      ensures forall k :: k in r <==> k in shortNames && |shortNames[k]| == 1
    {
      UniqueShortNames(shortNames)
    }

    /** `get_long_name_from_short(name)`. */
    function GetLongNameFromShort(name: string): (r: Option<string>)
      reads this
      ensures r.Some? <==> name in shortNames && |shortNames[name]| == 1
      ensures r.Some? ==> shortNames[name] == [r.value]
    {
      LongNameOf(shortNames, name)
    }

    /** `get_git_branch(qualified_path)`: the native branch first indexed for that path. */
    function GetGitBranch(qualifiedPath: string): (r: Option<string>)
      reads this
      ensures r.Some? <==> qualifiedPath in nodeData
      ensures r.Some? ==> r.value == nodeData[qualifiedPath].gitBranch
      ensures Valid() && r.Some? ==> nodeData[qualifiedPath] == NodeData(qualifiedPath, r.value)
    {
      if qualifiedPath in nodeData then Some(nodeData[qualifiedPath].gitBranch) else None
    }

    /**
     * `expand_from_short(name)`: an indexed qualified path as it is, otherwise the one
     * long name of the name with its `feature/` or `product/` prefix stripped.
     */
    function ExpandFromShort(name: string): (r: Option<string>)
      reads this
      ensures name in nodeData ==> r == Some(name)
      ensures name !in nodeData ==> r == LongNameOf(shortNames, GitNode.StripBranchType(name))
    {
      if name in nodeData then Some(name)
      else GetLongNameFromShort(GitNode.StripBranchType(name))
    }
  }

  // ------------------------------------------------------------------ properties

  /** A short name met for the first time names exactly one feature. */
  lemma FirstRecordIsUnique(shortNames: map<string, seq<string>>, name: string, converted: string)
    requires name !in shortNames
    ensures LongNameOf(RecordShortName(shortNames, name, converted), name) == Some(converted)
  {
  }

  /** The same feature recorded twice makes its short name ambiguous: no long name any more. */
  lemma RecordTwiceIsAmbiguous(shortNames: map<string, seq<string>>, name: string, converted: string)
    ensures LongNameOf(RecordShortName(RecordShortName(shortNames, name, converted), name, converted), name) == None
  {
    var once := RecordShortName(shortNames, name, converted);
    var twice := RecordShortName(once, name, converted);
    assert |Recorded(twice, name)| == |Recorded(shortNames, name)| + 2;
  }

  /** Once ambiguous, a short name stays ambiguous whatever is recorded later. */
  lemma AmbiguityPersists(shortNames: map<string, seq<string>>, name: string, other: string, converted: string)
    requires |Recorded(shortNames, name)| >= 2
    ensures LongNameOf(RecordShortName(shortNames, other, converted), name) == None
  {
    var r := RecordShortName(shortNames, other, converted);
    if other != name {
      assert Recorded(r, name) == Recorded(shortNames, name);
    }
  }

  /** Under the invariant, every long name handed out is an indexed feature path ending in the short name. */
  lemma LongNameIsIndexed(m: BranchDataModel, name: string)
    requires m.Valid() && m.GetLongNameFromShort(name).Some?
    ensures m.GetLongNameFromShort(name).value in m.nodeData
    ensures TreeDataModel.FeaturesPrefix <= m.GetLongNameFromShort(name).value
    ensures LastSegment(m.GetLongNameFromShort(name).value) == name
  {
    var p := m.GetLongNameFromShort(name).value;
    assert p in m.shortNames[name];
  }

  /** Under the invariant, whatever `expand_from_short` returns has a native branch. */
  lemma ExpansionIsIndexed(m: BranchDataModel, name: string)
    requires m.Valid() && m.ExpandFromShort(name).Some?
    ensures m.GetGitBranch(m.ExpandFromShort(name).value).Some?
  {
    if name !in m.nodeData {
      LongNameIsIndexed(m, GitNode.StripBranchType(name));
    }
  }

  /** Whitespace around a line and `*` markers anywhere do not change its qualified path. */
  lemma ConvertedIgnoresMarkers(branch: string)
    ensures ConvertedBranch(StarStripped(branch)) == ConvertedBranch(branch)
    ensures ConvertedBranch(branch) == Trim(ConvertedBranch(branch))
  {
    RemoveAbsent(StarStripped(branch), '*');
    TrimUntouched(ConvertedBranch(branch));
  }

  /** A new index entry keeps both invariants of the maps. */
  lemma IndexingKeepsShortNames(shortNames: map<string, seq<string>>, nodeData: map<string, NodeData>,
                                converted: string, withoutStar: string)
    requires ShortNamesIndexed(shortNames, nodeData) && SelfKeyed(nodeData)
    ensures ShortNamesIndexed(shortNames, nodeData[converted := NodeData(converted, withoutStar)])
    ensures SelfKeyed(nodeData[converted := NodeData(converted, withoutStar)])
  {
    var d := nodeData[converted := NodeData(converted, withoutStar)];
    assert forall k | k in shortNames :: |shortNames[k]| >= 1;
    forall k, p | k in shortNames && p in shortNames[k]
      ensures p in d && TreeDataModel.FeaturesPrefix <= p && LastSegment(p) == k
    {
      assert p in nodeData;
    }
    forall q | q in d
      ensures d[q].qualifiedPath == q
    {
      if q != converted {
        assert q in nodeData;
      }
    }
  }

  /** Recording an indexed feature path under its last segment keeps the short-name invariant. */
  lemma RecordingKeepsShortNames(shortNames: map<string, seq<string>>, nodeData: map<string, NodeData>,
                                 featureName: string, converted: string)
    requires ShortNamesIndexed(shortNames, nodeData)
    requires converted in nodeData && TreeDataModel.FeaturesPrefix <= converted
    requires featureName == LastSegment(converted)
    ensures ShortNamesIndexed(RecordShortName(shortNames, featureName, converted), nodeData)
  {
    var r := RecordShortName(shortNames, featureName, converted);
    forall k, p | k in r && p in r[k]
      ensures p in nodeData && TreeDataModel.FeaturesPrefix <= p && LastSegment(p) == k
    {
      if k == featureName {
        assert r[k] == Recorded(shortNames, k) + [converted];
        if p != converted {
          assert p in shortNames[k];
        }
      } else {
        assert p in shortNames[k];
      }
    }
  }

  /** The tree keeps unique child names under `insert_qualified_path`. */
  lemma InsertQualifiedKeepsNamesUnique(n: NameNode, qualifiedPath: string)
    requires UniqueNames(n)
    ensures UniqueNames(InsertQualifiedPath(n, qualifiedPath))
  {
    InsertKeepsNamesUnique(n, Split(qualifiedPath, '/'));
  }

  /** After `insert_qualified_path(p)`, each segment of p can be walked with `get_child`. */
  lemma InsertedPathIsWalkable(n: NameNode, qualifiedPath: string)
    ensures Walk(InsertQualifiedPath(n, qualifiedPath), Split(qualifiedPath, '/')).Some?
  {
    InsertThenWalk(n, Split(qualifiedPath, '/'));
  }
}
