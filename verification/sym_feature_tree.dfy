/**
 * `SymFeatureNode` of src/git/tree.rs: a name tree whose recursive
 * `add_children_recursive` appends a fresh node by name and then looks it up again
 * before descending. It builds exactly the tree `NameTree.InsertPath` describes.
 */
module SymFeatureTree {
  import opened Wrappers
  import opened NameTree

  /** `add_child(name)`: a fresh childless node called `name` is appended at the end. */
  function AddChildNamed(n: NameNode, name: string): (r: NameNode)
    ensures r.name == n.name && |r.children| == |n.children| + 1
    ensures r.children[..|n.children|] == n.children
    ensures r.children[|n.children|].name == name && r.children[|n.children|].children == []
  {
    AddChild(n, New(name))
  }

  /**
   * `add_children_recursive(qualified_path)`: an empty path returns at once; otherwise
   * the child named `qualified_path[0]` is found with `get_child_mut` (added first when
   * missing) and the rest of the path is added below it. The updated node is returned.
   */
  method AddChildrenRecursive(n: NameNode, qualifiedPath: seq<string>) returns (r: NameNode)
    ensures r == InsertPath(n, qualifiedPath)
    decreases |qualifiedPath|
  {
    if |qualifiedPath| == 0 {
      return n;
    }
    var name := qualifiedPath[0];
    var node := n;
    var found := ChildIndex(node.children, name);
    if found.None? {
      node := AddChildNamed(node, name);
      FirstMatch(node.children, name, |n.children|);
      found := ChildIndex(node.children, name);
    }
    var i := found.value;
    var next := AddChildrenRecursive(node.children[i], qualifiedPath[1..]);
    r := node.(children := node.children[i := next]);
    if ChildIndex(n.children, name).None? {
      assert node.children[i := next] == n.children + [next];
    }
  }

  /**
   * Building a tree by repeated `add_children_recursive` calls: child names stay unique
   * and a path, once added, is found by walking it.
   */
  lemma AddedPathsAreReachable(n: NameNode, paths: seq<seq<string>>, k: nat)
    requires k < |paths| && UniqueNames(n)
    ensures UniqueNames(InsertAll(n, paths))
    ensures Walk(InsertAll(n, paths), paths[k]).Some?
    decreases |paths|
  {
    var last := |paths| - 1;
    var before := InsertAll(n, paths[..last]);
    assert paths[..last] == paths[..|paths| - 1];
    if last > 0 {
      AddedPathsAreReachable(n, paths[..last], if k < last then k else 0);
    }
    InsertKeepsNamesUnique(before, paths[last]);
    if k == last {
      InsertThenWalk(before, paths[last]);
    } else {
      InsertKeepsPath(before, paths[last], paths[k]);
    }
  }

  /** The tree after inserting every path of `paths`, in order. */
  function InsertAll(n: NameNode, paths: seq<seq<string>>): NameNode
  {
    if |paths| == 0 then n else InsertPath(InsertAll(n, paths[..|paths| - 1]), paths[|paths| - 1])
  }
}
