/**
 * `currently_editing(target, appendix)` of src/cli/util.rs: whether the user is still typing
 * the `--name` flag, judged from the last two tokens of the command line.
 */
module CliUtil {

  const NameFlag := "--name"

  /** The token is a non-empty beginning of `--name`. */
  predicate StartsNameFlag(token: string)
  {
    token <= NameFlag && token != ""
  }

  /**
   * `currently_editing`: the last or the second-to-last token is a non-empty beginning of
   * `--name`. The target is not consulted; the appendix needs two tokens (`len() - 2`).
   */
  function CurrentlyEditing(target: string, appendix: seq<string>): (r: bool)
    requires |appendix| >= 2
    ensures r ==> appendix[|appendix| - 1] != "" || appendix[|appendix| - 2] != ""
  {
    var last := appendix[|appendix| - 1];
    var preLast := appendix[|appendix| - 2];
    StartsNameFlag(last) || StartsNameFlag(preLast)
  }

  /** The six tokens that begin `--name`, listed out. */
  const NameFlagBeginnings: seq<string> := ["-", "--", "--n", "--na", "--nam", "--name"]

  /** A token begins `--name` exactly when it is one of the six listed beginnings. */
  lemma StartsNameFlagListed(token: string)
    ensures StartsNameFlag(token) <==> token in NameFlagBeginnings
  {
    if StartsNameFlag(token) {
      assert token == NameFlag[..|token|];
      assert 1 <= |token| <= 6;
      if |token| == 1 { assert token == NameFlagBeginnings[0]; }
      else if |token| == 2 { assert token == NameFlagBeginnings[1]; }
      else if |token| == 3 { assert token == NameFlagBeginnings[2]; }
      else if |token| == 4 { assert token == NameFlagBeginnings[3]; }
      else if |token| == 5 { assert token == NameFlagBeginnings[4]; }
      else { assert token == NameFlagBeginnings[5]; }
    }
  }

  /** The result in terms of the listed beginnings of `--name`. */
  lemma CurrentlyEditingListed(target: string, appendix: seq<string>)
    requires |appendix| >= 2
    ensures CurrentlyEditing(target, appendix) <==>
      appendix[|appendix| - 1] in NameFlagBeginnings || appendix[|appendix| - 2] in NameFlagBeginnings
  {
    StartsNameFlagListed(appendix[|appendix| - 1]);
    StartsNameFlagListed(appendix[|appendix| - 2]);
  }

  /** The target makes no difference. */
  lemma TargetIsIgnored(target: string, other: string, appendix: seq<string>)
    requires |appendix| >= 2
    ensures CurrentlyEditing(target, appendix) == CurrentlyEditing(other, appendix)
  {
  }

  /** Only the last two tokens make a difference. */
  lemma OnlyLastTwoTokensCount(target: string, appendix: seq<string>, other: seq<string>)
    requires |appendix| >= 2 && |other| >= 2
    requires appendix[|appendix| - 2..] == other[|other| - 2..]
    ensures CurrentlyEditing(target, appendix) == CurrentlyEditing(target, other)
  {
    assert appendix[|appendix| - 1] == appendix[|appendix| - 2..][1] == other[|other| - 1];
    assert appendix[|appendix| - 2] == appendix[|appendix| - 2..][0] == other[|other| - 2];
  }
}
