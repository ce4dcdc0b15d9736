/** `get_name_from_paths`: each game path's final component with a given text removed. */
module Namer {
  import opened Text
  import opened Paths

  /** The text `main` strips from every game directory name. */
  const StripText: string := "_game"

  /**
   * `get_name_from_paths(paths, to_strip)`: one name per path, in the same
   * order, each the path's final component with every non-overlapping
   * occurrence of `toStrip` removed in one left-to-right pass.
   */
  function GetNameFromPaths(paths: seq<string>, toStrip: string): (r: seq<string>)
    ensures |r| == |paths|
    ensures forall k :: 0 <= k < |paths| ==> r[k] == RemoveAll(Basename(paths[k]), toStrip)
    decreases |paths|
  {
    if |paths| == 0 then []
    else [RemoveAll(Basename(paths[0]), toStrip)] + GetNameFromPaths(paths[1..], toStrip)
  }

  /** A final component with no occurrence of `toStrip` is used unchanged as the name. */
  lemma NameWithoutStripTextIsKept(path: string, toStrip: string)
    requires !Contains(Basename(path), toStrip)
    ensures GetNameFromPaths([path], toStrip) == [Basename(path)]
  {
    NoOccurrenceKeepsText(Basename(path), toStrip);
  }

  /** A trailing "_game" after text without an underscore is dropped. */
  lemma StripTrailingExample()
    ensures RemoveAll("hello_game", StripText) == "hello"
  {
    assert "hello_game" == "hello" + StripText;
    RemoveAllTrailing("hello", StripText);
  }

  /** Underscores earlier in the name do not disturb removing the trailing "_game". */
  lemma StripUnderscoredExample()
    ensures RemoveAll("tic_tac_toe_game", StripText) == "tic_tac_toe"
  {
    var t := "tic_tac_toe_game";
    assert OccursAt(t, StripText, 11);
    forall i | 0 <= i < 11
      ensures !OccursAt(t, StripText, i)
    {
      assert t[i..i + 5][1] != StripText[1];
    }
    RemoveAllAtFirstOccurrence(t, StripText, 11);
    assert t[16..] == "";
  }

  /** "game_game" loses only its "_game", keeping the leading "game". */
  lemma StripDoubledExample()
    ensures RemoveAll("game_game", StripText) == "game"
  {
    var g := "game_game";
    assert OccursAt(g, StripText, 4);
    forall i | 0 <= i < 4
      ensures !OccursAt(g, StripText, i)
    {
      assert g[i] != '_';
    }
    RemoveAllAtFirstOccurrence(g, StripText, 4);
    assert g[9..] == "";
  }

  /**
   * The pass is not repeated: removing "_game" from "x_ga_gameme" joins
   * "x_ga" and "me" into a new "x_game", which stays.
   */
  lemma StripSinglePassExample()
    ensures RemoveAll("x_ga_gameme", StripText) == "x_game"
  {
    var x := "x_ga_gameme";
    assert OccursAt(x, StripText, 4);
    forall i | 0 <= i < 4
      ensures !OccursAt(x, StripText, i)
    {
      assert x[i..i + 5][3] != StripText[3];
    }
    RemoveAllAtFirstOccurrence(x, StripText, 4);
    assert x[9..] == "me";
    NoOccurrenceKeepsText("me", StripText);
    assert "x_ga" + "me" == "x_game";
  }

  /** Stripping is therefore not idempotent: a second pass changes "x_ga_gameme"'s name again. */
  lemma StripNotIdempotent()
    ensures RemoveAll(RemoveAll("x_ga_gameme", StripText), StripText) != RemoveAll("x_ga_gameme", StripText)
  {
    StripSinglePassExample();
    assert "x_game" == "x" + StripText;
    RemoveAllTrailing("x", StripText);
  }
}
