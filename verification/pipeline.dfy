/**
 * `main(source, target)`: scan the source, derive names, create the target
 * root, copy and build each game in scan order, then write the manifest.
 */
module Pipeline {
  import opened Wrappers
  import opened Text
  import opened Paths
  import opened FileTree
  import opened Scanner
  import opened Namer
  import opened Builder
  import opened Materializer
  import opened Metadata
  import opened Selection

  /** What a run leaves behind: the target root, the builds it ran, the manifest it wrote and the error that stopped it. */
  datatype Run = Run(target: Target, builds: seq<Invocation>, manifest: Option<Manifest>, fault: Option<Fault>)

  /** Where the copy loop stops: the target's children, how many games it copied, and the error that stopped it. */
  datatype Progress = Progress(children: map<string, Node>, done: nat, fault: Option<Fault>)

  /** The names `main` derives for the games found under `source`, resolved against `cwd`. */
  function DerivedNames(cwd: string, source: string, listing: Option<seq<Entry>>): seq<string>
  {
    GetNameFromPaths(FindAllGamePaths(Join(cwd, source), listing), StripText)
  }

  /** `children` holds `name` as a plain file, so copying a game onto it raises. */
  predicate IsFileIn(children: map<string, Node>, name: string)
  {
    name in children && children[name].File?
  }

  /** Some game is to be copied onto a name the target already holds as a plain file. */
  predicate HitsFile(children: map<string, Node>, names: seq<string>)
  {
    exists i :: 0 <= i < |names| && IsFileIn(children, names[i])
  }

  /**
   * The builds of the games, in order: `compile_game_code` on each game's
   * destination. Each build reads the copy just made, which holds exactly the
   * game's own entries (`BuildReadsCopy`).
   */
  function Builds(targetPath: string, games: seq<Entry>, names: seq<string>): (r: seq<Invocation>)
    requires |games| == |names|
    ensures |r| <= |names|
    decreases |names|
  {
    if |names| == 0 then []
    else OptionToSeq(BuildOf(targetPath, games[0], names[0])) + Builds(targetPath, games[1..], names[1..])
  }

  /** `compile_game_code` on the copy of `game` at `name`: a build exactly when the game has a top-level `.go` file. */
  function BuildOf(targetPath: string, game: Entry, name: string): Option<Invocation>
  {
    CompileGameCode(Join(targetPath, name), Contents(game.node))
  }

  /** What the build step does with each game, position by position. */
  function BuildOptions(targetPath: string, games: seq<Entry>, names: seq<string>): seq<Option<Invocation>>
    requires |games| == |names|
  {
    seq(|names|, i requires 0 <= i < |names| => BuildOf(targetPath, games[i], names[i]))
  }

  /** The builds are the present build steps. */
  lemma {:induction false} BuildsAreSomes(targetPath: string, games: seq<Entry>, names: seq<string>)
    requires |games| == |names|
    ensures Builds(targetPath, games, names) == Somes(BuildOptions(targetPath, games, names))
    decreases |names|
  {
    if |names| > 0 {
      var os := BuildOptions(targetPath, games, names);
      var tail := BuildOptions(targetPath, games[1..], names[1..]);
      assert os[1..] == tail by {
        forall k | 0 <= k < |tail|
          ensures os[1..][k] == tail[k]
        {
          assert games[1..][k] == games[k + 1] && names[1..][k] == names[k + 1];
        }
      }
      assert Somes(os) == OptionToSeq(os[0]) + Somes(tail);
      BuildsAreSomes(targetPath, games[1..], names[1..]);
    }
  }

  /**
   * The builds are, in order, one `go build` per game that has a top-level
   * `.go` file, run in that game's destination, and nothing else: build `k`
   * belongs to the `k`-th such game.
   */
  lemma BuildsExact(targetPath: string, games: seq<Entry>, names: seq<string>) returns (idx: seq<int>)
    requires |games| == |names|
    ensures SelectsSome(BuildOptions(targetPath, games, names), idx)
    ensures |idx| == |Builds(targetPath, games, names)|
    ensures forall k :: 0 <= k < |idx| ==>
      Builds(targetPath, games, names)[k] == BuildOf(targetPath, games[idx[k]], names[idx[k]]).value
  {
    idx := SomesExact(BuildOptions(targetPath, games, names));
    BuildsAreSomes(targetPath, games, names);
  }

  /** What the build after a successful copy reads is the game it copied. */
  lemma BuildReadsCopy(targetPath: string, children: map<string, Node>, name: string, game: Entry)
    requires CopyAndOverwrite(children, name, Contents(game.node)).Success?
    ensures CompileGameCode(Join(targetPath, name), Contents(CopyAndOverwrite(children, name, Contents(game.node)).value[name]))
         == CompileGameCode(Join(targetPath, name), Contents(game.node))
  {
  }

  /**
   * The copies of the loop `for src, dest in zip(game_paths, new_game_dirs)`
   * of `main`: each game is copied to its name in turn, and the first
   * destination that is a plain file raises and ends the loop. `done` games
   * were copied, and so built, before that.
   */
  function CopyAll(children: map<string, Node>, games: seq<Entry>, names: seq<string>): (p: Progress)
    requires |games| == |names|
    ensures p.done <= |names|
    ensures p.fault.None? <==> !HitsFile(children, names)
    ensures p.fault.None? ==> p.done == |names|
    ensures p.fault.Some? ==> p.done < |names| && IsFileIn(children, names[p.done])
                              && p.fault.value == DestinationIsAFile(names[p.done])
    ensures forall i :: 0 <= i < p.done ==> !IsFileIn(children, names[i])
    decreases |names|
  {
    if |names| == 0 then Progress(children, 0, None)
    else
      match CopyAndOverwrite(children, names[0], Contents(games[0].node))
      case Failure(f) => Progress(children, 0, Some(f))
      case Success(copied) =>
        var rest := CopyAll(copied, games[1..], names[1..]);
        CopiedFilesStep(children, names, copied);
        Progress(rest.children, rest.done + 1, rest.fault)
  }

  /** After copying onto `names[0]`, a name is a plain file exactly when it was one and is not `names[0]`. */
  lemma CopiedFilesStep(children: map<string, Node>, names: seq<string>, copied: map<string, Node>)
    requires |names| > 0 && !IsFileIn(children, names[0])
    requires copied.Keys == children.Keys + {names[0]} && copied[names[0]].Dir?
    requires forall k :: k in children && k != names[0] ==> copied[k] == children[k]
    ensures forall i :: 0 <= i < |names| - 1 ==> (IsFileIn(copied, names[1..][i]) <==> IsFileIn(children, names[i + 1]))
    ensures HitsFile(copied, names[1..]) <==> HitsFile(children, names)
  {
    forall i | 0 <= i < |names| - 1
      ensures IsFileIn(copied, names[1..][i]) <==> IsFileIn(children, names[i + 1])
    {
      assert names[1..][i] == names[i + 1];
    }
    if HitsFile(children, names) {
      var i :| 0 <= i < |names| && IsFileIn(children, names[i]);
      assert IsFileIn(copied, names[1..][i - 1]);
    }
  }

  /** The position of the last occurrence of `k` in `names`, or -1 when there is none. */
  function LastIndex(names: seq<string>, k: string): (r: int)
    ensures -1 <= r < |names|
    ensures r >= 0 <==> k in names
    ensures r >= 0 ==> names[r] == k && forall j :: r < j < |names| ==> names[j] != k
    decreases |names|
  {
    if |names| == 0 then -1
    else
      var t := LastIndex(names[1..], k);
      assert names == [names[0]] + names[1..];
      if t >= 0 then t + 1 else if names[0] == k then 0 else -1
  }

  /**
   * The target's children once every game has been copied: each derived name
   * holds a copy of the LAST game with that name; every other child is as before.
   */
  function Placed(children: map<string, Node>, games: seq<Entry>, names: seq<string>): map<string, Node>
    requires |games| == |names|
  {
    map k | k in children.Keys + (set n | n in names) ::
      if k in names then Dir(Contents(games[LastIndex(names, k)].node)) else children[k]
  }

  /** The last occurrence in a list is the last occurrence in its tail, if there is one there. */
  lemma LastIndexStep(names: seq<string>, k: string)
    requires |names| > 0
    ensures k in names[1..] ==> LastIndex(names, k) == LastIndex(names[1..], k) + 1
    ensures k !in names[1..] && k == names[0] ==> LastIndex(names, k) == 0
  {
  }

  /** Copying the first game first does not change which names the target ends up holding. */
  lemma PlacedStepKeys(children: map<string, Node>, games: seq<Entry>, names: seq<string>)
    requires |games| == |names| > 0
    ensures Placed(children[names[0] := Dir(Contents(games[0].node))], games[1..], names[1..]).Keys
         == Placed(children, games, names).Keys
  {
    assert names == [names[0]] + names[1..];
    assert (set n | n in names) == {names[0]} + (set n | n in names[1..]);
  }

  /** Copying the first game and placing the rest places them all. */
  lemma PlacedStep(children: map<string, Node>, games: seq<Entry>, names: seq<string>)
    requires |games| == |names| > 0
    ensures Placed(children[names[0] := Dir(Contents(games[0].node))], games[1..], names[1..])
         == Placed(children, games, names)
  {
    var c1 := children[names[0] := Dir(Contents(games[0].node))];
    var lhs := Placed(c1, games[1..], names[1..]);
    var rhs := Placed(children, games, names);
    PlacedStepKeys(children, games, names);
    forall k | k in lhs.Keys
      ensures lhs[k] == rhs[k]
    {
      LastIndexStep(names, k);
      if k in names[1..] {
        assert games[1..][LastIndex(names[1..], k)] == games[LastIndex(names, k)];
      }
    }
  }

  /** A loop that raises nothing leaves exactly the children `Placed` describes: the later copy wins. */
  lemma {:induction false} CopyAllPlaces(children: map<string, Node>, games: seq<Entry>, names: seq<string>)
    requires |games| == |names|
    requires !HitsFile(children, names)
    ensures CopyAll(children, games, names).children == Placed(children, games, names)
    decreases |names|
  {
    if |names| == 0 {
      assert Placed(children, games, names) == children;
    } else {
      var copied := children[names[0] := Dir(Contents(games[0].node))];
      assert !IsFileIn(children, names[0]);
      assert CopyAndOverwrite(children, names[0], Contents(games[0].node)) == Success(copied);
      CopiedFilesStep(children, names, copied);
      CopyAllPlaces(copied, games[1..], names[1..]);
      PlacedStep(children, games, names);
    }
  }

  /** Dropping the head of a prefix is taking the prefix of the tail. */
  lemma TailOfPrefix<T>(xs: seq<T>, d: nat)
    requires d < |xs|
    ensures xs[..d + 1][1..] == xs[1..][..d]
  {
  }

  /** Copying the first game and then placing the next `d` places the first `d + 1`. */
  lemma PlacedPrefixStep(children: map<string, Node>, games: seq<Entry>, names: seq<string>, d: nat)
    requires |games| == |names| && d < |names|
    ensures Placed(children[names[0] := Dir(Contents(games[0].node))], games[1..][..d], names[1..][..d])
         == Placed(children, games[..d + 1], names[..d + 1])
  {
    TailOfPrefix(games, d);
    TailOfPrefix(names, d);
    PlacedStep(children, games[..d + 1], names[..d + 1]);
  }

  /**
   * Whether or not the loop raises, it leaves the games it copied placed over
   * the old children, the later copy of a name winning; nothing after the
   * failing game is copied.
   */
  lemma {:induction false} CopyAllPlacesDone(children: map<string, Node>, games: seq<Entry>, names: seq<string>)
    requires |games| == |names|
    ensures CopyAll(children, games, names).children
         == Placed(children, games[..CopyAll(children, games, names).done], names[..CopyAll(children, games, names).done])
    decreases |names|
  {
    var p := CopyAll(children, games, names);
    if |names| == 0 || IsFileIn(children, names[0]) {
      assert p.done == 0 && p.children == children;
      assert Placed(children, games[..0], names[..0]) == children by {
        assert names[..0] == [];
      }
    } else {
      var copied := children[names[0] := Dir(Contents(games[0].node))];
      var rest := CopyAll(copied, games[1..], names[1..]);
      assert p == Progress(rest.children, rest.done + 1, rest.fault) by {
        assert CopyAndOverwrite(children, names[0], Contents(games[0].node)) == Success(copied);
      }
      assert rest.children == Placed(copied, games[1..][..rest.done], names[1..][..rest.done]) by {
        CopyAllPlacesDone(copied, games[1..], names[1..]);
      }
      PlacedPrefixStep(children, games, names, rest.done);
    }
  }

  /** The children of the target root before the run, as far as it is a directory. */
  function ChildrenOf(t: Target): map<string, Node>
  {
    match t
    case Tree(c) => c
    case _ => map[]
  }

  /**
   * Lines 121-129 of `main` once the games and their names are known: create
   * the target root at `targetPath`, copy and build every game, then write the
   * manifest. `before` is the target as it stands.
   */
  function Execute(targetPath: string, games: seq<Entry>, names: seq<string>, before: Target): (r: Run)
    requires |games| == |names|
    ensures r.fault.None? <==> r.manifest.Some?
    ensures !r.target.Missing?
    ensures r.manifest.Some? ==> r.manifest.value.gameNames == names && Consistent(r.manifest.value)
  {
    var root := CreateDir(before);
    if !root.Tree? then Run(root, [], None, Some(TargetNotADirectory))
    else
      var p := CopyAll(root.children, games, names);
      var builds := Builds(targetPath, games[..p.done], names[..p.done]);
      if p.fault.Some? then Run(Tree(p.children), builds, None, p.fault)
      else
        match WriteManifest(p.children, names)
        case Failure(f) => Run(Tree(p.children), builds, None, Some(f))
        case Success(written) => Run(Tree(written.0), builds, Some(written.1), None)
  }

  /**
   * `main(source, target)` run from `cwd`, where `listing` is the first level
   * of the source as `os.walk` sees it and `before` is the target as it stands.
   */
  function RunTool(cwd: string, source: string, target: string, listing: Option<seq<Entry>>, before: Target): (r: Run)
    ensures r.fault.None? <==> r.manifest.Some?
    ensures !r.target.Missing?
    ensures r.manifest.Some? ==> r.manifest.value.gameNames == DerivedNames(cwd, source, listing)
    ensures r.manifest.Some? ==> Consistent(r.manifest.value)
  {
    Execute(Join(cwd, target), GameDirsOf(listing), DerivedNames(cwd, source, listing), before)
  }

  /** The run completes exactly when nothing in the target stands in its way. */
  predicate Unobstructed(before: Target, names: seq<string>)
  {
    && !before.NotADirectory?
    && !HitsFile(ChildrenOf(before), names)
    && MetadataFileName !in names
    && !(MetadataFileName in ChildrenOf(before) && ChildrenOf(before)[MetadataFileName].Dir?)
  }

  /** Both directions of the run's outcome, proved together. */
  lemma ExecuteOutcome(targetPath: string, games: seq<Entry>, names: seq<string>, before: Target)
    requires |games| == |names|
    ensures var r := Execute(targetPath, games, names, before);
            && (r.fault.None? <==> Unobstructed(before, names))
            && (r.fault.None? ==> r.target == Tree(Placed(ChildrenOf(before), games, names)[MetadataFileName := File]))
            && (r.fault.None? ==> r.builds == Builds(targetPath, games, names))
            && (r.fault.None? ==> r.manifest == Some(Manifest(names, |names|)))
  {
    var root := CreateDir(before);
    if root.Tree? {
      assert ChildrenOf(before) == root.children;
      var p := CopyAll(root.children, games, names);
      if p.fault.None? {
        CopyAllPlaces(root.children, games, names);
        assert games[..p.done] == games && names[..p.done] == names;
        var placed := Placed(root.children, games, names);
        assert MetadataFileName in names ==> placed[MetadataFileName].Dir?;
        assert MetadataFileName !in names && MetadataFileName in root.children ==>
          placed[MetadataFileName] == root.children[MetadataFileName];
        var w := WriteManifest(p.children, names);
        if w.Success? {
          assert w.value.0 == placed[MetadataFileName := File];
        }
      }
    }
  }

  /**
   * A run succeeds exactly when the target is not a plain file, no game name
   * lands on a plain file, and neither a game nor an existing directory takes
   * the manifest's name.
   */
  lemma ExecuteSucceedsIff(targetPath: string, games: seq<Entry>, names: seq<string>, before: Target)
    requires |games| == |names|
    ensures Execute(targetPath, games, names, before).fault.None? <==> Unobstructed(before, names)
  {
    ExecuteOutcome(targetPath, games, names, before);
  }

  /**
   * A successful run leaves every game copied under its name (the last game
   * of a name wins), every unrelated child untouched and the manifest file
   * written; it ran one build per game holding a `.go` file, and its manifest
   * lists the names in scan order, duplicates included.
   */
  lemma ExecuteOnSuccess(targetPath: string, games: seq<Entry>, names: seq<string>, before: Target)
    requires |games| == |names|
    requires Execute(targetPath, games, names, before).fault.None?
    ensures Execute(targetPath, games, names, before).target
         == Tree(Placed(ChildrenOf(before), games, names)[MetadataFileName := File])
    ensures Execute(targetPath, games, names, before).builds == Builds(targetPath, games, names)
    ensures Execute(targetPath, games, names, before).manifest == Some(Manifest(names, |names|))
  {
    ExecuteOutcome(targetPath, games, names, before);
  }

  /**
   * A game copied onto a plain file raises inside the loop: the run stops
   * there with that error, leaving exactly the games before it placed over the
   * old children and built, and writes no manifest.
   */
  lemma ExecuteStopsAtFirstFile(targetPath: string, games: seq<Entry>, names: seq<string>, children: map<string, Node>, j: int)
    requires |games| == |names|
    requires 0 <= j < |names| && IsFileIn(children, names[j])
    requires forall i :: 0 <= i < j ==> !IsFileIn(children, names[i])
    ensures Execute(targetPath, games, names, Tree(children)).fault == Some(DestinationIsAFile(names[j]))
    ensures Execute(targetPath, games, names, Tree(children)).builds == Builds(targetPath, games[..j], names[..j])
    ensures Execute(targetPath, games, names, Tree(children)).manifest.None?
    ensures Execute(targetPath, games, names, Tree(children)).target == Tree(Placed(children, games[..j], names[..j]))
  {
    assert HitsFile(children, names);
    var p := CopyAll(children, games, names);
    assert p.fault.Some? && IsFileIn(children, names[p.done]);
    assert p.done == j;
    CopyAllPlacesDone(children, games, names);
    assert Execute(targetPath, games, names, Tree(children))
        == Run(Tree(p.children), Builds(targetPath, games[..j], names[..j]), None, p.fault);
  }

  /**
   * When two games derive the same name, the copy made later replaces the
   * earlier one: the name ends up holding the last such game.
   */
  lemma LaterSourceWins(children: map<string, Node>, games: seq<Entry>, names: seq<string>, i: int, j: int)
    requires |games| == |names|
    requires 0 <= i < j < |names| && names[i] == names[j]
    requires forall l :: j < l < |names| ==> names[l] != names[j]
    ensures names[i] in Placed(children, games, names)
    ensures Placed(children, games, names)[names[i]] == Dir(Contents(games[j].node))
  {
    assert names[j] in names;
  }

  /** A successful run leaves every child of the target that no game and no manifest claims as it was. */
  lemma UnrelatedChildrenUntouched(targetPath: string, games: seq<Entry>, names: seq<string>, before: Target, k: string)
    requires |games| == |names|
    requires Execute(targetPath, games, names, before).fault.None?
    requires k in ChildrenOf(before) && k !in names && k != MetadataFileName
    ensures && Execute(targetPath, games, names, before).target.Tree?
            && k in Execute(targetPath, games, names, before).target.children
            && Execute(targetPath, games, names, before).target.children[k] == ChildrenOf(before)[k]
  {
    var placed := Placed(ChildrenOf(before), games, names);
    var r := Execute(targetPath, games, names, before);
    ExecuteOnSuccess(targetPath, games, names, before);
    assert r.target.children == placed[MetadataFileName := File];
    assert placed[k] == ChildrenOf(before)[k];
  }

  /**
   * A game named like the manifest file always stops the run: either its copy
   * meets the manifest file of an earlier run, or the manifest later meets its copy.
   */
  lemma GameNamedLikeManifestFails(targetPath: string, games: seq<Entry>, names: seq<string>, before: Target)
    requires |games| == |names|
    requires MetadataFileName in names
    ensures Execute(targetPath, games, names, before).fault.Some?
    ensures Execute(targetPath, games, names, before).manifest.None?
  {
    ExecuteSucceedsIff(targetPath, games, names, before);
  }

  /** Placing games onto a tree that already holds each of them under its name changes nothing. */
  lemma PlacedFixpoint(children: map<string, Node>, games: seq<Entry>, names: seq<string>)
    requires |games| == |names|
    requires forall n :: n in names ==> n in children && children[n] == Dir(Contents(games[LastIndex(names, n)].node))
    ensures Placed(children, games, names) == children
  {
    var p := Placed(children, games, names);
    assert p.Keys == children.Keys;
  }

  /**
   * The tree a successful run leaves is unobstructed for the same games, and
   * placing them onto it again, manifest file included, leaves it as it is.
   */
  lemma PlacedTreeIsStable(c0: map<string, Node>, games: seq<Entry>, names: seq<string>)
    requires |games| == |names|
    requires MetadataFileName !in names
    ensures Unobstructed(Tree(Placed(c0, games, names)[MetadataFileName := File]), names)
    ensures Placed(Placed(c0, games, names)[MetadataFileName := File], games, names)[MetadataFileName := File]
         == Placed(c0, games, names)[MetadataFileName := File]
  {
    var c1 := Placed(c0, games, names)[MetadataFileName := File];
    forall n | n in names
      ensures n in c1 && c1[n] == Dir(Contents(games[LastIndex(names, n)].node))
    {
      assert n != MetadataFileName;
    }
    assert !HitsFile(c1, names) by {
      forall i | 0 <= i < |names|
        ensures !(names[i] in c1 && c1[names[i]].File?)
      {
        assert names[i] in names;
      }
    }
    PlacedFixpoint(c1, games, names);
    assert c1[MetadataFileName := File] == c1;
  }

  /**
   * Running a second time over the target a successful run left behind
   * repeats the first run exactly: same target tree, same builds, same
   * manifest. Each destination is replaced, not merged.
   */
  lemma ExecuteTwiceIsIdempotent(targetPath: string, games: seq<Entry>, names: seq<string>, before: Target)
    requires |games| == |names|
    requires Execute(targetPath, games, names, before).fault.None?
    ensures Execute(targetPath, games, names, Execute(targetPath, games, names, before).target)
         == Execute(targetPath, games, names, before)
  {
    var r1 := Execute(targetPath, games, names, before);
    ExecuteSucceedsIff(targetPath, games, names, before);
    ExecuteOnSuccess(targetPath, games, names, before);
    PlacedTreeIsStable(ChildrenOf(before), games, names);
    ExecuteSucceedsIff(targetPath, games, names, r1.target);
    ExecuteOnSuccess(targetPath, games, names, r1.target);
  }

  /** A target root that is a plain file stops the run before anything is copied or built. */
  lemma TargetFileStopsRun(targetPath: string, games: seq<Entry>, names: seq<string>)
    requires |games| == |names|
    ensures Execute(targetPath, games, names, NotADirectory) == Run(NotADirectory, [], None, Some(TargetNotADirectory))
  {
  }

  /** `main` succeeds exactly when nothing in the target stands in the way of the names it derives. */
  lemma RunToolSucceedsIff(cwd: string, source: string, target: string, listing: Option<seq<Entry>>, before: Target)
    ensures RunTool(cwd, source, target, listing, before).fault.None?
        <==> Unobstructed(before, DerivedNames(cwd, source, listing))
  {
    ExecuteSucceedsIff(Join(cwd, target), GameDirsOf(listing), DerivedNames(cwd, source, listing), before);
  }

  /** What a successful `main` leaves, builds and writes, in terms of the listing and the target before. */
  lemma RunToolOnSuccess(cwd: string, source: string, target: string, listing: Option<seq<Entry>>, before: Target)
    requires RunTool(cwd, source, target, listing, before).fault.None?
    ensures RunTool(cwd, source, target, listing, before).target
         == Tree(Placed(ChildrenOf(before), GameDirsOf(listing), DerivedNames(cwd, source, listing))[MetadataFileName := File])
    ensures RunTool(cwd, source, target, listing, before).builds
         == Builds(Join(cwd, target), GameDirsOf(listing), DerivedNames(cwd, source, listing))
    ensures RunTool(cwd, source, target, listing, before).manifest
         == Some(Manifest(DerivedNames(cwd, source, listing), |DerivedNames(cwd, source, listing)|))
  {
    ExecuteOnSuccess(Join(cwd, target), GameDirsOf(listing), DerivedNames(cwd, source, listing), before);
  }

  /** Running `main` again with the same arguments over what a successful run left repeats that run exactly. */
  lemma RunTwiceIsIdempotent(cwd: string, source: string, target: string, listing: Option<seq<Entry>>, before: Target)
    requires RunTool(cwd, source, target, listing, before).fault.None?
    ensures RunTool(cwd, source, target, listing, RunTool(cwd, source, target, listing, before).target)
         == RunTool(cwd, source, target, listing, before)
  {
    ExecuteTwiceIsIdempotent(Join(cwd, target), GameDirsOf(listing), DerivedNames(cwd, source, listing), before);
  }

  /**
   * The manifest's names come from the listing: one per top-level game
   * directory, in listing order, each the directory's own name with every
   * "_game" removed in one pass.
   */
  lemma DerivedNamesFromListing(cwd: string, source: string, es: seq<Entry>) returns (idx: seq<int>)
    requires forall i :: 0 <= i < |es| ==> Sep !in es[i].name
    ensures SelectsSome(GameOptions(es), idx)
    ensures |DerivedNames(cwd, source, Some(es))| == |idx|
    ensures forall k :: 0 <= k < |idx| ==> DerivedNames(cwd, source, Some(es))[k] == RemoveAll(es[idx[k]].name, StripText)
  {
    idx := FindAllGamePathsExact(Join(cwd, source), es);
  }

}
