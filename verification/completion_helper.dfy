/**
 * `CompletionHelper::currently_editing` of src/cli/completion.rs: walking the tokens typed
 * so far, each token is attributed to the option or positional argument it fills, and the
 * argument attributed to the last token is the one being edited. The command line parser's
 * argument record is abstracted to an id, an optional short and long flag and an action.
 */
module CompletionHelper {
  import opened Wrappers

  /** The argument actions of the command line parser. */
  datatype Action = Set | Append | SetTrue | SetFalse | Count | Help | HelpShort | HelpLong | Version

  datatype Arg = Arg(id: string, short: Option<char>, long: Option<string>, action: Action)

  /** A command: its name, its options (flagged arguments) and its positionals in declaration order. */
  datatype Command = Command(name: string, opts: seq<Arg>, positionals: seq<Arg>)

  /** A token names an option when it is `-` and its short flag, or `--` and its long flag. */
  predicate Names(o: Arg, element: string)
  {
    (o.short.Some? && element == ['-', o.short.value]) || (o.long.Some? && element == "--" + o.long.value)
  }

  /** The first option the token names, if any. */
  function FindOption(opts: seq<Arg>, element: string): (r: Option<Arg>)
    ensures r.None? <==> forall k | 0 <= k < |opts| :: !Names(opts[k], element)
    ensures r.Some? ==> exists k | 0 <= k < |opts| ::
      opts[k] == r.value && Names(opts[k], element) && (forall j | 0 <= j < k :: !Names(opts[j], element))
  {
    if |opts| == 0 then None
    else if Names(opts[0], element) then Some(opts[0])
    else
      var r := FindOption(opts[1..], element);
      assert forall k | 1 <= k < |opts| :: opts[k] == opts[1..][k - 1];
      if r.Some? then
        var k' :| 0 <= k' < |opts| - 1 && opts[1..][k'] == r.value && Names(opts[1..][k'], element)
          && forall j | 0 <= j < k' :: !Names(opts[1..][j], element);
        assert forall j | 0 <= j < k' + 1 :: !Names(opts[j], element) by {
          forall j | 0 <= j < k' + 1 ensures !Names(opts[j], element) {
            if j > 0 { assert opts[j] == opts[1..][j - 1]; }
          }
        }
        r
      else r
  }

  /**
   * What the loop of `currently_editing` carries from token to token: the last option
   * named and where, the positional being filled and where it started, and how many
   * positionals the iterator has handed out.
   */
  datatype Cursor = Cursor(option: Option<Arg>, optionStart: nat,
                           positional: Option<Arg>, positionalStart: nat, taken: nat)

  const Start := Cursor(None, 0, None, 0, 0)

  /** `is_last_option`: a Set option takes the token right after it, an Append option every later one. */
  predicate IsLastOption(index: nat, option: Option<Arg>, start: nat)
  {
    match option
    case None => false
    case Some(o) =>
      match o.action
      case Set => start == index - 1
      case Append => start < index
      case _ => false
  }

  /** `is_last_positional`: a Set positional covers its own token, an Append positional every later one. */
  predicate IsLastPositional(index: nat, positional: Option<Arg>, start: nat)
  {
    match positional
    case None => false
    case Some(p) =>
      match p.action
      case Set => start == index
      case Append => start <= index
      case _ => false
  }

  /** The argument the `filter_map` closure attributes token `index` to, given the cursor before it. */
  function Attribute(cmd: Command, c: Cursor, index: nat, element: string): Option<Arg>
  {
    if element == cmd.name then None
    else if FindOption(cmd.opts, element).Some? then None
    else if IsLastOption(index, c.option, c.optionStart) then c.option
    else if IsLastPositional(index, c.positional, c.positionalStart) then c.positional
    else if c.taken < |cmd.positionals| then Some(cmd.positionals[c.taken])
    else None
  }

  /** The cursor after the closure has seen token `index`. */
  function Advance(cmd: Command, c: Cursor, index: nat, element: string): Cursor
  {
    if element == cmd.name then c
    else
      match FindOption(cmd.opts, element)
      case Some(o) => c.(option := Some(o), optionStart := index)
      case None =>
        if IsLastOption(index, c.option, c.optionStart) then c
        else if IsLastPositional(index, c.positional, c.positionalStart) then c
        else if c.taken < |cmd.positionals| then
          c.(positional := Some(cmd.positionals[c.taken]), positionalStart := index, taken := c.taken + 1)
        else c
  }

  /** The cursor after the first `n` tokens. */
  function CursorAfter(cmd: Command, appendix: seq<string>, n: nat): Cursor
    requires n <= |appendix|
  {
    if n == 0 then Start
    else Advance(cmd, CursorAfter(cmd, appendix, n - 1), n - 1, appendix[n - 1])
  }

  /** The argument token `i` is attributed to (the entry of `cmd_to_index` at `i`). */
  function AttributedAt(cmd: Command, appendix: seq<string>, i: nat): Option<Arg>
    requires i < |appendix|
  {
    Attribute(cmd, CursorAfter(cmd, appendix, i), i, appendix[i])
  }

  /** The id of the argument attributed to the last token. */
  function Editing(cmd: Command, appendix: seq<string>): Option<string>
    requires |appendix| >= 1
  {
    match AttributedAt(cmd, appendix, |appendix| - 1)
    case Some(a) => Some(a.id)
    case None => None
  }

  /**
   * `currently_editing`: one pass over the tokens, keeping the cursor in local variables and
   * collecting the attributions in a map from token index to argument. The appendix must be
   * non-empty (its `len() - 1` is taken).
   */
  method CurrentlyEditing(cmd: Command, appendix: seq<string>) returns (r: Option<string>)
    requires |appendix| >= 1
    ensures r == Editing(cmd, appendix)
    ensures r.Some? <==> AttributedAt(cmd, appendix, |appendix| - 1).Some?
  {
    var currentOption: Option<Arg> := None;
    var currentOptionStart: nat := 0;
    var taken: nat := 0;
    var currentPositional: Option<Arg> := None;
    var currentPositionalStart: nat := 0;
    var cmdToIndex: map<nat, Arg> := map[];
    var index := 0;
    while index < |appendix|
      invariant index <= |appendix|
      invariant Cursor(currentOption, currentOptionStart, currentPositional, currentPositionalStart, taken)
        == CursorAfter(cmd, appendix, index)
      invariant forall j: nat | j < index :: (j in cmdToIndex <==> AttributedAt(cmd, appendix, j).Some?)
      invariant forall j | j in cmdToIndex :: j < index && Some(cmdToIndex[j]) == AttributedAt(cmd, appendix, j)
    {
      var element := appendix[index];
      ghost var before := CursorAfter(cmd, appendix, index);
      assert CursorAfter(cmd, appendix, index + 1) == Advance(cmd, before, index, element);
      assert AttributedAt(cmd, appendix, index) == Attribute(cmd, before, index, element);
      if element != cmd.name {
        var foundOption := FindOption(cmd.opts, element);
        match foundOption {
          case Some(option) =>
            currentOption := Some(option);
            currentOptionStart := index;
          case None =>
            if IsLastOption(index, currentOption, currentOptionStart) {
              cmdToIndex := cmdToIndex[index := currentOption.value];
            } else if IsLastPositional(index, currentPositional, currentPositionalStart) {
              cmdToIndex := cmdToIndex[index := currentPositional.value];
            } else if taken < |cmd.positionals| {
              var positional := cmd.positionals[taken];
              taken := taken + 1;
              currentPositionalStart := index;
              currentPositional := Some(positional);
              cmdToIndex := cmdToIndex[index := positional];
            }
        }
      }
      index := index + 1;
    }
    var last := |appendix| - 1;
    if last in cmdToIndex {
      r := Some(cmdToIndex[last].id);
    } else {
      r := None;
    }
  }

  // ------------------------------------------------------------------ properties

  /** Options and positionals are different arguments, and no positional is declared twice. */
  predicate WellFormed(cmd: Command)
  {
    && (forall a, b | 0 <= a < b < |cmd.positionals| :: cmd.positionals[a] != cmd.positionals[b])
    && (forall o | o in cmd.opts :: o !in cmd.positionals)
  }

  /** Which later token an option named at `i` captures, by its action. */
  predicate Captures(action: Action, i: nat, j: nat)
  {
    match action
    case Set => j == i + 1
    case Append => true
    case _ => false
  }

  /**
   * What the cursor keeps true: the current option is a declared option, and the current
   * positional is the last one the iterator handed out, which started at an earlier token.
   */
  lemma {:induction false} CursorInvariant(cmd: Command, appendix: seq<string>, n: nat)
    requires n <= |appendix|
    ensures var c := CursorAfter(cmd, appendix, n);
      && (c.option.Some? ==> c.option.value in cmd.opts)
      && c.taken <= |cmd.positionals|
      && (c.taken == 0 ==> c.positional == None)
      && (c.taken > 0 ==> c.positional == Some(cmd.positionals[c.taken - 1]) && c.positionalStart < n)
  {
    if n > 0 {
      CursorInvariant(cmd, appendix, n - 1);
    }
  }

  /** A token equal to the command name is attributed to nothing and leaves the cursor alone. */
  lemma CommandNameIsSkipped(cmd: Command, appendix: seq<string>, i: nat)
    requires i < |appendix| && appendix[i] == cmd.name
    ensures AttributedAt(cmd, appendix, i) == None
    ensures CursorAfter(cmd, appendix, i + 1) == CursorAfter(cmd, appendix, i)
  {
  }

  /** A token naming an option is attributed to nothing; that option becomes the current one. */
  lemma OptionTokenStartsOption(cmd: Command, appendix: seq<string>, i: nat, o: Arg)
    requires i < |appendix| && appendix[i] != cmd.name
    requires FindOption(cmd.opts, appendix[i]) == Some(o)
    ensures AttributedAt(cmd, appendix, i) == None
    ensures CursorAfter(cmd, appendix, i + 1).option == Some(o)
    ensures CursorAfter(cmd, appendix, i + 1).optionStart == i
  {
  }

  /** An option stays current until a token names another option. */
  lemma {:induction false} OptionPersists(cmd: Command, appendix: seq<string>, i: nat, k: nat, o: Arg)
    requires i < k <= |appendix| && appendix[i] != cmd.name
    requires FindOption(cmd.opts, appendix[i]) == Some(o)
    requires forall t | i < t < k :: FindOption(cmd.opts, appendix[t]).None?
    ensures CursorAfter(cmd, appendix, k).option == Some(o)
    ensures CursorAfter(cmd, appendix, k).optionStart == i
  {
    if k > i + 1 {
      OptionPersists(cmd, appendix, i, k - 1, o);
    }
  }

  /**
   * After a token naming option `o`, and as long as no token names an option, a later token
   * is attributed to `o` exactly when it is not the command name and `o`'s action captures
   * it: a Set option the very next token, an Append option every later one, any other
   * action none.
   */
  lemma OptionCaptures(cmd: Command, appendix: seq<string>, i: nat, j: nat, o: Arg)
    requires WellFormed(cmd)
    requires i < j < |appendix| && appendix[i] != cmd.name
    requires FindOption(cmd.opts, appendix[i]) == Some(o)
    requires forall t | i < t <= j :: FindOption(cmd.opts, appendix[t]).None?
    ensures AttributedAt(cmd, appendix, j) == Some(o) <==> appendix[j] != cmd.name && Captures(o.action, i, j)
  {
    OptionPersists(cmd, appendix, i, j, o);
    CursorInvariant(cmd, appendix, j);
  }

  /**
   * Positionals are handed out in declaration order: a token either keeps the count of
   * positionals taken, or takes the next one and is attributed to it.
   */
  lemma PositionalsInOrder(cmd: Command, appendix: seq<string>, i: nat)
    requires i < |appendix|
    ensures var before := CursorAfter(cmd, appendix, i);
      var after := CursorAfter(cmd, appendix, i + 1);
      && (after.taken == before.taken || after.taken == before.taken + 1)
      && (after.taken == before.taken + 1 ==>
            && AttributedAt(cmd, appendix, i) == Some(cmd.positionals[before.taken])
            && after.positionalStart == i)
  {
  }

  /** A Set positional covers only the token it started at. */
  lemma SetPositionalCoversOneToken(cmd: Command, appendix: seq<string>, i: nat, p: Arg)
    requires WellFormed(cmd) && i < |appendix|
    requires CursorAfter(cmd, appendix, i).positional == Some(p) && p.action == Set
    ensures AttributedAt(cmd, appendix, i) != Some(p)
  {
    CursorInvariant(cmd, appendix, i);
  }

  /** An Append positional covers every later token no option takes. */
  lemma AppendPositionalCoversLater(cmd: Command, appendix: seq<string>, i: nat, p: Arg)
    requires i < |appendix| && appendix[i] != cmd.name
    requires FindOption(cmd.opts, appendix[i]).None?
    requires !IsLastOption(i, CursorAfter(cmd, appendix, i).option, CursorAfter(cmd, appendix, i).optionStart)
    requires CursorAfter(cmd, appendix, i).positional == Some(p) && p.action == Append
    ensures AttributedAt(cmd, appendix, i) == Some(p)
  {
    CursorInvariant(cmd, appendix, i);
  }

  /** The command name alone edits nothing. */
  lemma CommandNameAloneEditsNothing(cmd: Command)
    ensures Editing(cmd, [cmd.name]) == None
  {
  }

  // ------------------------------------------------------------------ the unit-test command

  /** `mytool` with a Set option `--option1/-a`, a SetTrue option `--option2/-b`, and positionals `pos1` (Set) and `pos2` (Append). */
  function TestCommand(): (cmd: Command)
    ensures WellFormed(cmd)
  {
    Command("mytool",
            [Arg("option1", Some('a'), Some("option1"), Set), Arg("option2", Some('b'), Some("option2"), SetTrue)],
            [Arg("pos1", None, None, Set), Arg("pos2", None, None, Append)])
  }

  lemma EditingOneOption()
    ensures Editing(TestCommand(), ["mytool", "--option1", ""]) == Some("option1")
  {
  }

  lemma EditingAfterOptionValue()
    ensures Editing(TestCommand(), ["mytool", "--option1", "abc", ""]) == Some("pos1")
  {
    var cmd, a := TestCommand(), ["mytool", "--option1", "abc", ""];
    assert FindOption(cmd.opts, "--option1") == Some(cmd.opts[0]);
    assert CursorAfter(cmd, a, 2) == Cursor(Some(cmd.opts[0]), 1, None, 0, 0);
    assert FindOption(cmd.opts, "abc") == None;
    assert CursorAfter(cmd, a, 3) == CursorAfter(cmd, a, 2);
    assert FindOption(cmd.opts, "") == None;
  }

  lemma EditingOnePositional()
    ensures Editing(TestCommand(), ["mytool", "abc"]) == Some("pos1")
  {
  }

  /** In `mytool abc a …`, `abc` takes `pos1` and `a` takes `pos2`. */
  lemma AppendTestTakesBothPositionals()
    ensures CursorAfter(TestCommand(), ["mytool", "abc", "a", "b", "c", "d"], 3)
      == Cursor(None, 0, Some(TestCommand().positionals[1]), 2, 2)
  {
    var cmd, a := TestCommand(), ["mytool", "abc", "a", "b", "c", "d"];
    assert CursorAfter(cmd, a, 1) == Start;
    assert FindOption(cmd.opts, "abc") == None;
    assert CursorAfter(cmd, a, 2) == Cursor(None, 0, Some(cmd.positionals[0]), 1, 1);
    assert FindOption(cmd.opts, "a") == None;
  }

  lemma EditingAppendPositional()
    ensures Editing(TestCommand(), ["mytool", "abc", "a", "b", "c", "d"]) == Some("pos2")
  {
    var cmd, a := TestCommand(), ["mytool", "abc", "a", "b", "c", "d"];
    AppendTestTakesBothPositionals();
    assert FindOption(cmd.opts, "b") == None;
    assert CursorAfter(cmd, a, 4) == CursorAfter(cmd, a, 3);
    assert FindOption(cmd.opts, "c") == None;
    assert CursorAfter(cmd, a, 5) == CursorAfter(cmd, a, 3);
    assert FindOption(cmd.opts, "d") == None;
  }

  lemma EditingAfterBooleanOption()
    ensures Editing(TestCommand(), ["mytool", "-b", ""]) == Some("pos1")
  {
    var cmd, a := TestCommand(), ["mytool", "-b", ""];
    assert FindOption(cmd.opts, "-b") == Some(cmd.opts[1]);
    assert CursorAfter(cmd, a, 2) == Cursor(Some(cmd.opts[1]), 1, None, 0, 0);
    assert FindOption(cmd.opts, "") == None;
  }
}
