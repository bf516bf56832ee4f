/**
 * The role-free name tree of src/git/model/base.rs: a node owns a name and a list of
 * children; `insert_path` walks a path of names, creating what is missing.
 * The same algorithm is `SymNode::insert_from_split_path` of src/git/model.rs.
 */
module NameTree {
  import opened Wrappers

  datatype NameNode = NameNode(name: string, children: seq<NameNode>)

  /** `Node::new(name)`: a childless node. */
  function New(name: string): (r: NameNode)
    ensures r.name == name && r.children == []
  {
    NameNode(name, [])
  }

  /** Position of the first child called `name` (`iter().find`). */
  function ChildIndex(children: seq<NameNode>, name: string): (r: Option<nat>)
    ensures r.Some? ==> r.value < |children| && children[r.value].name == name
    ensures r.Some? ==> forall j | 0 <= j < r.value :: children[j].name != name
    ensures r.None? <==> forall j | 0 <= j < |children| :: children[j].name != name
  {
    if |children| == 0 then None
    else if children[0].name == name then Some(0)
    else match ChildIndex(children[1..], name)
      case None => None
      case Some(i) => Some(i + 1)
  }

  /** `get_child(name)`: the first child with that name. */
  function GetChild(n: NameNode, name: string): (r: Option<NameNode>)
    ensures r.Some? <==> exists j | 0 <= j < |n.children| :: n.children[j].name == name
    ensures r.Some? ==> r.value in n.children && r.value.name == name
  {
    match ChildIndex(n.children, name)
    case None => None
    case Some(i) => Some(n.children[i])
  }

  /** `add_child(child)`: appends. */
  function AddChild(n: NameNode, child: NameNode): (r: NameNode)
    ensures r.name == n.name && r.children == n.children + [child]
  {
    n.(children := n.children + [child])
  }

  /**
   * `insert_path(path)`: an empty path changes nothing; otherwise the first child
   * named `path[0]` is reused, or a new childless one is appended, and the rest of the
   * path is inserted below it.
   */
  function InsertPath(n: NameNode, path: seq<string>): (r: NameNode)
    ensures r.name == n.name
    decreases |path|
  {
    if |path| == 0 then n
    else match ChildIndex(n.children, path[0])
      case Some(i) =>
        n.(children := n.children[i := InsertPath(n.children[i], path[1..])])
      case None =>
        AddChild(n, InsertPath(New(path[0]), path[1..]))
  }

  /** Walking a path of names with `get_child`, hop by hop. */
  function Walk(n: NameNode, path: seq<string>): Option<NameNode>
    decreases |path|
  {
    if |path| == 0 then Some(n)
    else match GetChild(n, path[0])
      case None => None
      case Some(c) => Walk(c, path[1..])
  }

  /** Child names are pairwise distinct, at every level. */
  predicate UniqueNames(n: NameNode)
  {
    && (forall i, j | 0 <= i < j < |n.children| :: n.children[i].name != n.children[j].name)
    && (forall i | 0 <= i < |n.children| :: UniqueNames(n.children[i]))
  }

  /** The first-match index is determined by where the name first occurs. */
  lemma FirstMatch(children: seq<NameNode>, name: string, k: nat)
    requires k < |children| && children[k].name == name
    requires forall j | 0 <= j < k :: children[j].name != name
    ensures ChildIndex(children, name) == Some(k)
  {
    var r := ChildIndex(children, name);
    assert r.Some?;
  }

  // ------------------------------------------------------------------ properties

  lemma InsertEmptyPath(n: NameNode)
    ensures InsertPath(n, []) == n
  {
  }

  /** After `insert_path(p)`, walking `p` with `get_child` succeeds. */
  lemma {:induction false} InsertThenWalk(n: NameNode, path: seq<string>)
    ensures Walk(InsertPath(n, path), path).Some?
    decreases |path|
  {
    if |path| > 0 {
      var r := InsertPath(n, path);
      match ChildIndex(n.children, path[0])
      case Some(i) =>
        InsertThenWalk(n.children[i], path[1..]);
        FirstMatch(r.children, path[0], i);
      case None =>
        InsertThenWalk(New(path[0]), path[1..]);
        FirstMatch(r.children, path[0], |n.children|);
    }
  }

  /**
   * A missing first segment appends one child at the end; an existing one is reused in
   * place. Either way every other child (sibling) is untouched.
   */
  lemma InsertTouchesOneChild(n: NameNode, path: seq<string>)
    requires |path| > 0
    ensures ChildIndex(n.children, path[0]).None? ==>
      && InsertPath(n, path).children[..|n.children|] == n.children
      && |InsertPath(n, path).children| == |n.children| + 1
      && InsertPath(n, path).children[|n.children|] == InsertPath(New(path[0]), path[1..])
    ensures ChildIndex(n.children, path[0]).Some? ==>
      var i := ChildIndex(n.children, path[0]).value;
      && |InsertPath(n, path).children| == |n.children|
      && InsertPath(n, path).children[i] == InsertPath(n.children[i], path[1..])
      && forall j | 0 <= j < |n.children| && j != i :: InsertPath(n, path).children[j] == n.children[j]
  {
  }

  /** Inserting never creates a second child with an existing name. */
  lemma {:induction false} InsertKeepsNamesUnique(n: NameNode, path: seq<string>)
    requires UniqueNames(n)
    ensures UniqueNames(InsertPath(n, path))
    decreases |path|
  {
    if |path| > 0 {
      var r := InsertPath(n, path);
      match ChildIndex(n.children, path[0])
      case Some(i) =>
        InsertKeepsNamesUnique(n.children[i], path[1..]);
        assert forall j | 0 <= j < |r.children| :: r.children[j].name == n.children[j].name;
      case None =>
        InsertKeepsNamesUnique(New(path[0]), path[1..]);
        assert forall j | 0 <= j < |n.children| :: r.children[j] == n.children[j];
    }
  }

  /** Inserting the same path a second time changes nothing. */
  lemma {:induction false} InsertIdempotent(n: NameNode, path: seq<string>)
    ensures InsertPath(InsertPath(n, path), path) == InsertPath(n, path)
    decreases |path|
  {
    if |path| > 0 {
      var r := InsertPath(n, path);
      match ChildIndex(n.children, path[0])
      case Some(i) =>
        InsertIdempotent(n.children[i], path[1..]);
        FirstMatch(r.children, path[0], i);
        assert r.children[i := InsertPath(r.children[i], path[1..])] == r.children;
      case None =>
        InsertIdempotent(New(path[0]), path[1..]);
        var k := |n.children|;
        FirstMatch(r.children, path[0], k);
        assert r.children[k := InsertPath(r.children[k], path[1..])] == r.children;
    }
  }

  /** Inserting never removes a path that could already be walked. */
  lemma {:induction false} InsertKeepsPath(n: NameNode, path: seq<string>, other: seq<string>)
    requires Walk(n, other).Some?
    ensures Walk(InsertPath(n, path), other).Some?
    decreases |path|
  {
    if |path| > 0 && |other| > 0 {
      var r := InsertPath(n, path);
      var c := GetChild(n, other[0]).value;
      var j := ChildIndex(n.children, other[0]).value;
      match ChildIndex(n.children, path[0])
      case Some(i) =>
        FirstMatch(r.children, other[0], j);
        if i == j {
          InsertKeepsPath(c, path[1..], other[1..]);
        }
      case None =>
        FirstMatch(r.children, other[0], j);
    }
  }
}
