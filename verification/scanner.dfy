/**
 * `find_all_game_paths`: the top-level directories of the source whose
 * lower-cased name contains "game", joined onto the source path.
 */
module Scanner {
  import opened Wrappers
  import opened Text
  import opened Paths
  import opened FileTree
  import opened Selection

  /** `GAME_DIR_PATTERN`: the text a game directory's name must contain, ignoring case. */
  const GameDirPattern: string := "game"

  /**
   * `GAME_DIR_PATTERN in directory.lower()` for an entry of `dirs`: a
   * directory whose lower-cased name contains the pattern, so its name is at
   * least as long as the pattern.
   */
  function IsGameDir(e: Entry): (r: bool)
    ensures r ==> e.node.Dir? && |e.name| >= |GameDirPattern|
  {
    e.node.Dir? && Contains(Lower(e.name), GameDirPattern)
  }

  /** The letters g, a, m, e, each in either case, start at position `i` of `n`. */
  predicate GameAt(n: string, i: int)
  {
    && 0 <= i && i + 4 <= |n|
    && (n[i] == 'g' || n[i] == 'G')
    && (n[i + 1] == 'a' || n[i + 1] == 'A')
    && (n[i + 2] == 'm' || n[i + 2] == 'M')
    && (n[i + 3] == 'e' || n[i + 3] == 'E')
  }

  /** The lower-cased name has "game" at `i` exactly when the name has g, a, m, e there in any mix of cases. */
  lemma OccursGameAt(n: string, i: int)
    ensures OccursAt(Lower(n), GameDirPattern, i) <==> GameAt(n, i)
  {
    if 0 <= i && i + 4 <= |n| {
      var w := Lower(n)[i..i + 4];
      assert w == [Lower(n)[i], Lower(n)[i + 1], Lower(n)[i + 2], Lower(n)[i + 3]];
    }
  }

  /**
   * The test ignores case: an entry is a game directory exactly when it is a
   * directory and "game" appears in its name in any mix of upper and lower case.
   */
  lemma IsGameDirCaseless(e: Entry)
    ensures IsGameDir(e) <==> e.node.Dir? && exists i :: GameAt(e.name, i)
  {
    var n := e.name;
    if IsGameDir(e) {
      var i :| 0 <= i <= |Lower(n)| && OccursAt(Lower(n), GameDirPattern, i);
      OccursGameAt(n, i);
    }
    if e.node.Dir? && exists i :: GameAt(n, i) {
      var i :| GameAt(n, i);
      OccursGameAt(n, i);
      assert OccursAt(Lower(n), GameDirPattern, i);
    }
  }

  /** The entries the scan keeps, in listing order. */
  function GameDirs(es: seq<Entry>): (r: seq<Entry>)
    ensures |r| <= |es|
    ensures forall k :: 0 <= k < |r| ==> IsGameDir(r[k]) && r[k] in es
    decreases |es|
  {
    if |es| == 0 then []
    else (if IsGameDir(es[0]) then [es[0]] else []) + GameDirs(es[1..])
  }

  /**
   * The game directories of a source listing. `os.walk` yields nothing for a
   * source it cannot list, so an unreadable source (`None`) has no games.
   */
  function GameDirsOf(listing: Option<seq<Entry>>): seq<Entry>
  {
    match listing
    case None => []
    case Some(es) => GameDirs(es)
  }

  /** Each directory's name joined onto `source`, in order. */
  function JoinAll(source: string, ds: seq<Entry>): (r: seq<string>)
    ensures |r| == |ds|
    ensures forall k :: 0 <= k < |ds| ==> r[k] == Join(source, ds[k].name)
    decreases |ds|
  {
    if |ds| == 0 then [] else [Join(source, ds[0].name)] + JoinAll(source, ds[1..])
  }

  /**
   * `find_all_game_paths(source)`, given the first level of the walk as
   * `listing`; the walk stops there, so deeper levels are never consulted.
   */
  function FindAllGamePaths(source: string, listing: Option<seq<Entry>>): (r: seq<string>)
    ensures listing.None? ==> r == []
    ensures |r| == |GameDirsOf(listing)|
    ensures forall k :: 0 <= k < |r| && Sep !in GameDirsOf(listing)[k].name ==>
      Basename(r[k]) == GameDirsOf(listing)[k].name
  {
    var r := JoinAll(source, GameDirsOf(listing));
    assert forall k :: 0 <= k < |r| && Sep !in GameDirsOf(listing)[k].name ==>
      Basename(r[k]) == GameDirsOf(listing)[k].name by {
      forall k | 0 <= k < |r| && Sep !in GameDirsOf(listing)[k].name
        ensures Basename(r[k]) == GameDirsOf(listing)[k].name
      {
        BasenameOfJoin(source, GameDirsOf(listing)[k].name);
      }
    }
    r
  }

  /** An entry as the scan sees it: kept (present) exactly when it is a game directory. */
  function GameOption(e: Entry): Option<Entry>
  {
    if IsGameDir(e) then Some(e) else None
  }

  /** The scan's verdict on every entry of the listing, position by position. */
  function GameOptions(es: seq<Entry>): (r: seq<Option<Entry>>)
  {
    seq(|es|, i requires 0 <= i < |es| => GameOption(es[i]))
  }

  /** The kept entries are the present verdicts. */
  lemma {:induction false} GameDirsAreSomes(es: seq<Entry>)
    ensures GameDirs(es) == Somes(GameOptions(es))
    decreases |es|
  {
    if |es| > 0 {
      GameDirsAreSomes(es[1..]);
      assert GameOptions(es)[1..] == GameOptions(es[1..]);
      assert GameOptions(es)[0] == GameOption(es[0]);
    }
  }

  /**
   * The kept entries are exactly the game directories of the listing, each once,
   * in listing order: `GameDirs` is the filter of `es` by `IsGameDir`.
   */
  lemma GameDirsExact(es: seq<Entry>) returns (idx: seq<int>)
    ensures SelectsSome(GameOptions(es), idx)
    ensures |idx| == |GameDirs(es)|
    ensures forall k :: 0 <= k < |idx| ==> GameDirs(es)[k] == es[idx[k]]
  {
    idx := SomesExact(GameOptions(es));
    GameDirsAreSomes(es);
  }

  /**
   * Selection returns `join(source, name)` for exactly the top-level entries
   * that are directories whose lower-cased name contains "game", in listing
   * order; splitting a returned path gives back the directory's own name.
   */
  lemma FindAllGamePathsExact(source: string, es: seq<Entry>) returns (idx: seq<int>)
    ensures SelectsSome(GameOptions(es), idx)
    ensures |idx| == |FindAllGamePaths(source, Some(es))|
    ensures forall k :: 0 <= k < |idx| ==>
      FindAllGamePaths(source, Some(es))[k] == Join(source, es[idx[k]].name)
    ensures forall k :: 0 <= k < |idx| && Sep !in es[idx[k]].name ==>
      Basename(FindAllGamePaths(source, Some(es))[k]) == es[idx[k]].name
  {
    idx := GameDirsExact(es);
  }

  /** Two listings that agree on every entry's name and on which entries are directories. */
  predicate SameTopLevel(es1: seq<Entry>, es2: seq<Entry>)
  {
    && |es1| == |es2|
    && forall i :: 0 <= i < |es1| ==> es1[i].name == es2[i].name && es1[i].node.Dir? == es2[i].node.Dir?
  }

  /**
   * The scan never descends: what lies inside the top-level directories cannot
   * change which paths it returns.
   */
  lemma {:induction false} SelectionIgnoresContents(source: string, es1: seq<Entry>, es2: seq<Entry>)
    requires SameTopLevel(es1, es2)
    ensures FindAllGamePaths(source, Some(es1)) == FindAllGamePaths(source, Some(es2))
  {
    var g1 := GameDirs(es1);
    var g2 := GameDirs(es2);
    SameTopLevelSameNames(es1, es2);
    assert JoinAll(source, g1) == JoinAll(source, g2);
  }

  /** Listings with the same top level keep game directories with the same names. */
  lemma {:induction false} SameTopLevelSameNames(es1: seq<Entry>, es2: seq<Entry>)
    requires SameTopLevel(es1, es2)
    ensures |GameDirs(es1)| == |GameDirs(es2)|
    ensures forall k :: 0 <= k < |GameDirs(es1)| ==> GameDirs(es1)[k].name == GameDirs(es2)[k].name
    decreases |es1|
  {
    if |es1| > 0 {
      assert SameTopLevel(es1[1..], es2[1..]) by {
        forall i | 0 <= i < |es1[1..]|
          ensures es1[1..][i].name == es2[1..][i].name && es1[1..][i].node.Dir? == es2[1..][i].node.Dir?
        {
          assert es1[1..][i] == es1[i + 1] && es2[1..][i] == es2[i + 1];
        }
      }
      SameTopLevelSameNames(es1[1..], es2[1..]);
      assert IsGameDir(es1[0]) == IsGameDir(es2[0]);
    }
  }
}
