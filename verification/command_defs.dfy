/**
 * The command tree of src/cli/def.rs: every command has a name and its subcommands. The
 * lookups find a direct child by name, the deepest command a list of names leads to (the
 * names the caller passes are consumed on the way), and the children whose names start
 * with a prefix. The parser command and the command implementation are reduced to the name.
 */
module CommandDefs {
  import opened Wrappers

  datatype CommandMap = CommandMap(name: string, children: seq<CommandMap>)

  /** The first command in `commands` with that exact name. */
  function FindIn(commands: seq<CommandMap>, name: string): (r: Option<CommandMap>)
    ensures r.None? <==> forall k | 0 <= k < |commands| :: commands[k].name != name
    ensures r.Some? ==> exists k | 0 <= k < |commands| ::
      commands[k] == r.value && r.value.name == name && (forall j | 0 <= j < k :: commands[j].name != name)
  {
    if |commands| == 0 then None
    else if commands[0].name == name then Some(commands[0])
    else
      var r := FindIn(commands[1..], name);
      assert forall k | 1 <= k < |commands| :: commands[k] == commands[1..][k - 1];
      if r.Some? then
        var k' :| 0 <= k' < |commands| - 1 && commands[1..][k'] == r.value && r.value.name == name
          && forall j | 0 <= j < k' :: commands[1..][j].name != name;
        assert forall j | 0 <= j < k' + 1 :: commands[j].name != name by {
          forall j | 0 <= j < k' + 1 ensures commands[j].name != name {
            if j > 0 { assert commands[j] == commands[1..][j - 1]; }
          }
        }
        r
      else r
  }

  /** `find_child`: the first child with that name. */
  function FindChild(cmd: CommandMap, name: string): (r: Option<CommandMap>)
    ensures r.Some? ==> r.value in cmd.children && r.value.name == name
    ensures r.None? <==> forall c | c in cmd.children :: c.name != name
  {
    FindIn(cmd.children, name)
  }

  /** What `find_last_child_recursive` returns, and what is left of the caller's names afterwards. */
  datatype Found = Found(command: Option<CommandMap>, names: seq<string>)

  /**
   * `find_last_child_recursive`: nothing for no names or a first name that is not this
   * command's; this command for just its own name; otherwise the first name is removed
   * from the caller's list and the search goes on in the child named next, falling back to
   * this command. Whenever the first name matches, some command is found.
   */
  function FindLastChildRecursive(cmd: CommandMap, names: seq<string>): (r: Found)
    ensures |names| == 0 ==> r == Found(None, names)
    ensures |names| >= 1 && names[0] != cmd.name ==> r == Found(None, names)
    ensures names == [cmd.name] ==> r == Found(Some(cmd), names)
    ensures |names| >= 1 && names[0] == cmd.name ==> r.command.Some?
    ensures |r.names| <= |names| && r.names == names[|names| - |r.names|..]
    ensures |names| >= 1 ==> |r.names| >= 1
    decreases cmd
  {
    if |names| == 0 then Found(None, names)
    else if cmd.name == names[0] then
      if |names| == 1 then Found(Some(cmd), names)
      else
        var rest := names[1..];
        match FindChild(cmd, rest[0])
        case Some(child) =>
          var f := FindLastChildRecursive(child, rest);
          if f.command.Some? then f else Found(Some(cmd), f.names)
        case None => Found(Some(cmd), rest)
    else Found(None, names)
  }

  /** The command reached by following `path` from `cmd` for as long as the named children exist. */
  function Deepest(cmd: CommandMap, path: seq<string>): CommandMap
    decreases cmd
  {
    if |path| == 0 then cmd
    else
      match FindChild(cmd, path[0])
      case Some(child) => Deepest(child, path[1..])
      case None => cmd
  }

  /**
   * When the first name is this command's, the search finds the command the remaining
   * names lead to, stopping at the first name that has no child.
   */
  lemma {:induction false} FindLastIsDeepest(cmd: CommandMap, names: seq<string>)
    requires |names| >= 1 && names[0] == cmd.name
    ensures FindLastChildRecursive(cmd, names).command == Some(Deepest(cmd, names[1..]))
    decreases cmd
  {
    if |names| > 1 {
      var rest := names[1..];
      match FindChild(cmd, rest[0])
      case Some(child) =>
        FindLastIsDeepest(child, rest);
      case None =>
    }
  }

  /** The children whose names start with `prefix`, in order. */
  function FilterByPrefix(commands: seq<CommandMap>, prefix: string): (r: seq<CommandMap>)
    ensures forall c | c in r :: c in commands && prefix <= c.name
    ensures forall c | c in commands && prefix <= c.name :: c in r
    ensures |r| <= |commands|
  {
    if |commands| == 0 then []
    else
      var rest := FilterByPrefix(commands[1..], prefix);
      assert forall c | c in commands :: c == commands[0] || c in commands[1..];
      if prefix <= commands[0].name then [commands[0]] + rest else rest
  }

  /** `find_children_by_prefix`. */
  function FindChildrenByPrefix(cmd: CommandMap, prefix: string): (r: seq<CommandMap>)
    ensures forall c | c in r :: c in cmd.children && prefix <= c.name
    ensures forall c | c in cmd.children && prefix <= c.name :: c in r
  {
    FilterByPrefix(cmd.children, prefix)
  }

  /** The empty prefix keeps every child, in order. */
  lemma {:induction false} EmptyPrefixKeepsAll(commands: seq<CommandMap>)
    ensures FilterByPrefix(commands, "") == commands
  {
    if |commands| > 0 {
      EmptyPrefixKeepsAll(commands[1..]);
      assert commands == [commands[0]] + commands[1..];
    }
  }

  /**
   * The prefix filter keeps the input order: filtering two lists one after the other is
   * filtering their concatenation.
   */
  lemma {:induction false} PrefixFilterKeepsOrder(front: seq<CommandMap>, back: seq<CommandMap>, prefix: string)
    ensures FilterByPrefix(front + back, prefix) == FilterByPrefix(front, prefix) + FilterByPrefix(back, prefix)
  {
    if |front| == 0 {
      assert front + back == back;
    } else {
      assert (front + back)[1..] == front[1..] + back;
      PrefixFilterKeepsOrder(front[1..], back, prefix);
    }
  }

  /** The child found by a name is among the children found by any prefix of that name. */
  lemma FoundChildMatchesItsPrefixes(cmd: CommandMap, name: string, prefix: string)
    requires prefix <= name && FindChild(cmd, name).Some?
    ensures FindChild(cmd, name).value in FindChildrenByPrefix(cmd, prefix)
  {
  }
}
