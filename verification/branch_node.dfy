/**
 * The role-carrying node of src/git/model/node.rs: a name, a role, an optional native
 * branch and children keyed by name. Insertion asks the node's own role for the child
 * role on every call, so an area refuses a child it does not accept even when that child
 * already exists. A panic of the role rules ends the insertion with an `Err`.
 */
module BranchNode {
  import opened Wrappers
  import opened SplitRoles

  datatype Node = Node(name: string, nodeType: NodeType, gitBranch: Option<string>, children: seq<Node>)

  /** Children are keyed by name: no two share a name, at any level. */
  predicate Keyed(n: Node)
  {
    && (forall i, j | 0 <= i < j < |n.children| :: n.children[i].name != n.children[j].name)
    && (forall i | 0 <= i < |n.children| :: Keyed(n.children[i]))
  }

  /** The entry of the child map holding `name`. */
  function ChildIndex(children: seq<Node>, name: string): (r: Option<nat>)
    ensures r.Some? ==> r.value < |children| && children[r.value].name == name
    ensures r.Some? ==> forall j | 0 <= j < r.value :: children[j].name != name
    ensures r.None? <==> forall j | 0 <= j < |children| :: children[j].name != name
  {
    if |children| == 0 then None
    else if children[0].name == name then Some(0)
    else match ChildIndex(children[1..], name)
      case None => None
      case Some(i) => Some(i + 1)
  }

  lemma FirstMatch(children: seq<Node>, name: string, k: nat)
    requires k < |children| && children[k].name == name
    requires forall j | 0 <= j < k :: children[j].name != name
    ensures ChildIndex(children, name) == Some(k)
  {
    var r := ChildIndex(children, name);
    assert r.Some?;
  }

  /** `get_child(name)`. */
  function GetChild(n: Node, name: string): (r: Option<Node>)
    ensures r.Some? <==> exists j | 0 <= j < |n.children| :: n.children[j].name == name
    ensures r.Some? ==> r.value in n.children && r.value.name == name
  {
    match ChildIndex(n.children, name)
    case None => None
    case Some(i) => Some(n.children[i])
  }

  /** `add_child(child)`: the map insert replaces an entry of the same name, or adds one. */
  function AddChild(n: Node, child: Node): (r: Node)
    ensures r.name == n.name && r.nodeType == n.nodeType && r.gitBranch == n.gitBranch
    ensures GetChild(r, child.name) == Some(child)
    ensures |n.children| <= |r.children| <= |n.children| + 1
    ensures forall j | 0 <= j < |n.children| && n.children[j].name != child.name :: r.children[j] == n.children[j]
    ensures forall c | c in r.children :: c == child || c in n.children
  {
    match ChildIndex(n.children, child.name)
    case Some(i) =>
      var r := n.(children := n.children[i := child]);
      FirstMatch(r.children, child.name, i);
      r
    case None =>
      var r := n.(children := n.children + [child]);
      FirstMatch(r.children, child.name, |n.children|);
      r
  }

  /** `set_git_branch(branch)`. */
  function SetGitBranch(n: Node, branch: string): (r: Node)
    ensures r.gitBranch == Some(branch)
    ensures r.name == n.name && r.nodeType == n.nodeType && r.children == n.children
  {
    n.(gitBranch := Some(branch))
  }

  /**
   * `insert_path(path, branch)`: an empty path changes nothing. Otherwise the own role
   * is asked for the child role first (updating the own role); at the last hop an
   * existing child gets the branch, a missing one is created with the child role and the
   * branch; at earlier hops an existing child is reused and a missing one is created
   * with the child role and the branch, and the rest of the path is inserted below it.
   */
  function InsertPath(n: Node, path: seq<string>, branch: string): (r: Result<Node, Panic>)
    ensures r.Ok? ==> r.value.name == n.name
    decreases |path|
  {
    if |path| == 0 then Ok(n)
    else
      var name := path[0];
      var answer :- BuildChildFromPath(n.nodeType, path);
      var self := n.(nodeType := answer.1);
      var created := Node(name, answer.0, Some(branch), []);
      if |path| == 1 then
        match ChildIndex(self.children, name)
        case Some(i) => Ok(self.(children := self.children[i := SetGitBranch(self.children[i], branch)]))
        case None => Ok(AddChild(self, created))
      else
        match ChildIndex(self.children, name)
        case Some(i) =>
          var next :- InsertPath(self.children[i], path[1..], branch);
          Ok(self.(children := self.children[i := next]))
        case None =>
          var next :- InsertPath(created, path[1..], branch);
          Ok(AddChild(self, next))
  }

  /**
   * `get_from_path(path)`: None for the empty path; otherwise the node reached by looking
   * up every segment in turn, or None as soon as one is missing.
   */
  function GetFromPath(n: Node, path: seq<string>): (r: Option<Node>)
    ensures |path| == 0 ==> r.None?
    ensures r.Some? ==> r.value.name == path[|path| - 1]
    decreases |path|
  {
    if |path| == 0 then None
    else match GetChild(n, path[0])
      case None => None
      case Some(child) => if |path| == 1 then Some(child) else GetFromPath(child, path[1..])
  }

  // ------------------------------------------------------------------ properties

  /** `get_from_path` succeeds iff every prefix of the path resolves. */
  lemma {:induction false} GetFromPathStepwise(n: Node, path: seq<string>)
    requires |path| >= 2
    ensures GetFromPath(n, path).Some? <==>
      GetFromPath(n, path[..|path| - 1]).Some? && GetChild(GetFromPath(n, path[..|path| - 1]).value, path[|path| - 1]).Some?
    ensures GetFromPath(n, path).Some? ==>
      GetFromPath(n, path) == GetChild(GetFromPath(n, path[..|path| - 1]).value, path[|path| - 1])
    decreases |path|
  {
    var c := GetChild(n, path[0]);
    if c.Some? && |path| > 2 {
      GetFromPathStepwise(c.value, path[1..]);
      assert path[1..][..|path| - 2] == path[..|path| - 1][1..];
    }
  }

  /** After a successful insertion of a non-empty path, the path leads to a node with the branch. */
  lemma {:induction false} InsertThenGet(n: Node, path: seq<string>, branch: string)
    requires |path| > 0 && InsertPath(n, path, branch).Ok?
    ensures GetFromPath(InsertPath(n, path, branch).value, path).Some?
    ensures GetFromPath(InsertPath(n, path, branch).value, path).value.gitBranch == Some(branch)
    decreases |path|
  {
    var answer := BuildChildFromPath(n.nodeType, path).value;
    var self := n.(nodeType := answer.1);
    var r := InsertPath(n, path, branch).value;
    var created := Node(path[0], answer.0, Some(branch), []);
    match ChildIndex(self.children, path[0])
    case Some(i) =>
      FirstMatch(r.children, path[0], i);
      if |path| > 1 {
        InsertThenGet(self.children[i], path[1..], branch);
      }
    case None =>
      if |path| > 1 {
        InsertThenGet(created, path[1..], branch);
      }
  }

  /**
   * The own role is recomputed on every call, even when the child exists; the last hop
   * sets the branch of an existing child and keeps its role and children, or creates the
   * child with the computed role and the branch.
   */
  lemma FinalHop(n: Node, name: string, branch: string)
    requires InsertPath(n, [name], branch).Ok?
    ensures var answer := BuildChildFromPath(n.nodeType, [name]).value;
      var r := InsertPath(n, [name], branch).value;
      && r.nodeType == answer.1
      && GetChild(r, name).Some?
      && GetChild(r, name).value.gitBranch == Some(branch)
      && (GetChild(n, name).Some? ==>
            GetChild(r, name).value == GetChild(n, name).value.(gitBranch := Some(branch)))
      && (GetChild(n, name).None? ==> GetChild(r, name).value == Node(name, answer.0, Some(branch), []))
  {
    var r := InsertPath(n, [name], branch).value;
    match ChildIndex(n.children, name)
    case Some(i) => FirstMatch(r.children, name, i);
    case None =>
  }

  /** Intermediate nodes that did not exist are created with the branch, not without one. */
  lemma IntermediateCarriesBranch(n: Node, path: seq<string>, branch: string)
    requires |path| >= 2 && InsertPath(n, path, branch).Ok?
    requires GetChild(n, path[0]).None?
    ensures GetChild(InsertPath(n, path, branch).value, path[0]).Some?
    ensures GetChild(InsertPath(n, path, branch).value, path[0]).value.gitBranch == Some(branch)
    ensures var childRole := BuildChildFromPath(n.nodeType, path).value.0;
      && BuildChildFromPath(childRole, path[1..]).Ok?
      && GetChild(InsertPath(n, path, branch).value, path[0]).value.nodeType ==
         BuildChildFromPath(childRole, path[1..]).value.1
  {
  }

  lemma KeyedUpdate(n: Node, i: nat, c: Node)
    requires Keyed(n) && i < |n.children| && Keyed(c) && c.name == n.children[i].name
    ensures Keyed(n.(children := n.children[i := c]))
  {
  }

  lemma KeyedAppend(n: Node, c: Node)
    requires Keyed(n) && Keyed(c) && ChildIndex(n.children, c.name).None?
    ensures Keyed(n.(children := n.children + [c]))
  {
  }

  /** Insertion keeps children keyed by name. */
  lemma {:induction false} InsertKeepsKeys(n: Node, path: seq<string>, branch: string)
    requires Keyed(n) && InsertPath(n, path, branch).Ok?
    ensures Keyed(InsertPath(n, path, branch).value)
    decreases |path|
  {
    if |path| > 0 {
      var answer := BuildChildFromPath(n.nodeType, path).value;
      var self := n.(nodeType := answer.1);
      assert Keyed(self);
      var created := Node(path[0], answer.0, Some(branch), []);
      match ChildIndex(self.children, path[0])
      case Some(i) =>
        if |path| > 1 {
          InsertKeepsKeys(self.children[i], path[1..], branch);
          KeyedUpdate(self, i, InsertPath(self.children[i], path[1..], branch).value);
        } else {
          KeyedUpdate(self, i, SetGitBranch(self.children[i], branch));
        }
      case None =>
        if |path| > 1 {
          InsertKeepsKeys(created, path[1..], branch);
          KeyedAppend(self, InsertPath(created, path[1..], branch).value);
        } else {
          KeyedAppend(self, created);
        }
    }
  }

  /**
   * Because the role is asked before the lookup, an area refuses even a child it already
   * has, while a virtual root accepts any path whose second segment is a valid area child.
   */
  lemma RoleAskedBeforeLookup()
    ensures var area := Node("area", Area, None, [Node("docs", Feature, None, [])]);
      InsertPath(area, ["docs"], "b").Err?
    ensures InsertPath(Node("", VirtualRoot, None, []), ["area", "feature", "a"], "b").Ok?
    ensures InsertPath(Node("", VirtualRoot, None, []), ["area", "docs", "a"], "b").Err?
  {
  }
}
