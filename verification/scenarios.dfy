/**
 * Concrete runs of `main`: a game beside a non-game directory and a file, two
 * games that derive the same name, and a source that cannot be listed.
 */
module Scenarios {
  import opened Wrappers
  import opened Text
  import opened Paths
  import opened FileTree
  import opened Scanner
  import opened Namer
  import opened Builder
  import opened Materializer
  import opened Metadata
  import opened Pipeline

  const Hello: Entry := Entry("hello_game", Dir([Entry("main.go", File)]))
  const NotAMatch: Entry := Entry("not_a_match", Dir([Entry("x.txt", File)]))
  const Readme: Entry := Entry("game_readme.txt", File)

  /** "hello_game" is a game directory whatever the case of its letters. */
  lemma HelloIsGame()
    ensures IsGameDir(Hello)
    ensures IsGameDir(Entry("Hello_GAME", Hello.node))
  {
    LowerOfLowercase("hello_game");
    assert OccursAt("hello_game", GameDirPattern, 6);
    var upper := "Hello_GAME";
    assert Lower(upper) == "hello_game";
  }

  /** A directory without "game" in its name is skipped, and so is a file that has it. */
  lemma OthersAreNotGames()
    ensures !IsGameDir(NotAMatch)
    ensures !IsGameDir(Readme)
  {
    LowerOfLowercase("not_a_match");
    AbsentFirstCharNoOccurrence("not_a_match", GameDirPattern);
  }

  /** The scan of the example source keeps only "hello_game". */
  lemma EndToEndScan(listing: Option<seq<Entry>>)
    requires listing == Some([Hello, NotAMatch, Readme])
    ensures GameDirsOf(listing) == [Hello]
  {
    HelloIsGame();
    OthersAreNotGames();
    var es := [Hello, NotAMatch, Readme];
    assert GameDirs(es[2..]) == [];
    assert GameDirs(es[1..]) == [];
  }

  /** Wherever the source lies, the game path for "hello_game" derives the name "hello". */
  lemma HelloName(sourcePath: string)
    ensures GetNameFromPaths([Join(sourcePath, "hello_game")], StripText) == ["hello"]
  {
    assert Sep !in "hello_game";
    BasenameOfJoin(sourcePath, "hello_game");
    StripTrailingExample();
  }

  /** The example source derives the single name "hello". */
  lemma EndToEndNames(cwd: string, source: string, listing: Option<seq<Entry>>)
    requires listing == Some([Hello, NotAMatch, Readme])
    ensures DerivedNames(cwd, source, listing) == ["hello"]
  {
    EndToEndScan(listing);
    var sourcePath := Join(cwd, source);
    assert FindAllGamePaths(sourcePath, listing) == [Join(sourcePath, "hello_game")];
    HelloName(sourcePath);
  }

  /** The copy of "hello_game" is built with `go build main.go`. */
  lemma HelloCompile(path: string)
    ensures CompileGameCode(path, [Entry("main.go", File)]) == Some(Invocation(path, ["go", "build", "main.go"]))
  {
    assert FileNames([Entry("main.go", File)]) == ["main.go"];
    assert IsCodeFile("main.go");
    assert CompileCommand + ["main.go"] == ["go", "build", "main.go"];
  }

  /** Building the copy of "hello_game" runs `go build main.go` inside "<target>/hello". */
  lemma EndToEndBuilds(targetPath: string)
    ensures Builds(targetPath, [Hello], ["hello"])
         == [Invocation(Join(targetPath, "hello"), ["go", "build", "main.go"])]
  {
    HelloCompile(Join(targetPath, "hello"));
  }

  /** Nothing in a missing target stands in the way of a game named "hello". */
  lemma HelloUnobstructed()
    ensures Unobstructed(Missing, ["hello"])
  {
    assert !HitsFile(map[], ["hello"]);
    assert MetadataFileName !in ["hello"];
  }

  /** On the example source and a missing target, the run succeeds. */
  lemma EndToEndSucceeds(cwd: string, source: string, target: string, listing: Option<seq<Entry>>)
    requires listing == Some([Hello, NotAMatch, Readme])
    ensures RunTool(cwd, source, target, listing, Missing).fault.None?
  {
    EndToEndNames(cwd, source, listing);
    HelloUnobstructed();
    RunToolSucceedsIff(cwd, source, target, listing, Missing);
  }

  /** Placing "hello_game" as "hello" in an empty target gives a one-child tree, before the manifest. */
  lemma HelloPlaced()
    ensures Placed(map[], [Hello], ["hello"])[MetadataFileName := File]
         == map["hello" := Hello.node, MetadataFileName := File]
  {
    assert Placed(map[], [Hello], ["hello"]) == map["hello" := Hello.node];
  }

  /** The example run leaves "hello" (a copy of "hello_game") and the manifest file under the target. */
  lemma EndToEndTarget(cwd: string, source: string, target: string, listing: Option<seq<Entry>>)
    requires listing == Some([Hello, NotAMatch, Readme])
    ensures RunTool(cwd, source, target, listing, Missing).target
         == Tree(map["hello" := Hello.node, MetadataFileName := File])
  {
    EndToEndScan(listing);
    EndToEndNames(cwd, source, listing);
    EndToEndSucceeds(cwd, source, target, listing);
    RunToolOnSuccess(cwd, source, target, listing, Missing);
    HelloPlaced();
  }

  /** The example run builds the copy once and writes the manifest `{"gameNames": ["hello"], "numberOfGames": 1}`. */
  lemma EndToEndOutputs(cwd: string, source: string, target: string, listing: Option<seq<Entry>>)
    requires listing == Some([Hello, NotAMatch, Readme])
    ensures RunTool(cwd, source, target, listing, Missing).builds
         == [Invocation(Join(Join(cwd, target), "hello"), ["go", "build", "main.go"])]
    ensures RunTool(cwd, source, target, listing, Missing).manifest == Some(Manifest(["hello"], 1))
  {
    EndToEndScan(listing);
    EndToEndNames(cwd, source, listing);
    EndToEndBuilds(Join(cwd, target));
    EndToEndSucceeds(cwd, source, target, listing);
    RunToolOnSuccess(cwd, source, target, listing, Missing);
  }

  /**
   * `main(source, target)` with "hello_game/main.go", "not_a_match/x.txt" and a
   * file "game_readme.txt" in the source and no target yet: "<target>/hello"
   * holds the game, "not_a_match" is not copied, one `go build main.go` runs in
   * "<target>/hello", and the manifest is `{"gameNames": ["hello"], "numberOfGames": 1}`.
   */
  lemma EndToEnd(cwd: string, source: string, target: string, listing: Option<seq<Entry>>)
    requires listing == Some([Hello, NotAMatch, Readme])
    ensures RunTool(cwd, source, target, listing, Missing)
         == Run(Tree(map["hello" := Hello.node, MetadataFileName := File]),
                [Invocation(Join(Join(cwd, target), "hello"), ["go", "build", "main.go"])],
                Some(Manifest(["hello"], 1)),
                None)
  {
    EndToEndSucceeds(cwd, source, target, listing);
    EndToEndTarget(cwd, source, target, listing);
    EndToEndOutputs(cwd, source, target, listing);
  }

  const Pong: Entry := Entry("pong_game", Dir([Entry("a.go", File)]))
  const PongAgain: Entry := Entry("pong_game_game", Dir([Entry("b.go", File)]))

  /** Both "pong_game" and "pong_game_game" are game directories. */
  lemma PongsAreGames()
    ensures IsGameDir(Pong) && IsGameDir(PongAgain)
  {
    LowerOfLowercase("pong_game");
    LowerOfLowercase("pong_game_game");
    assert OccursAt("pong_game", GameDirPattern, 5);
    assert OccursAt("pong_game_game", GameDirPattern, 5);
  }

  /** "pong_game" loses its trailing "_game". */
  lemma PongStripsToPong()
    ensures RemoveAll("pong_game", StripText) == "pong"
  {
    assert "pong_game" == "pong" + StripText;
    RemoveAllTrailing("pong", StripText);
  }

  /** "pong_game_game" loses both of its "_game"s: every occurrence goes, not just the last. */
  lemma PongAgainStripsToPong()
    ensures RemoveAll("pong_game_game", StripText) == "pong"
  {
    var g := "pong_game_game";
    assert OccursAt(g, StripText, 4);
    forall i | 0 <= i < 4
      ensures !OccursAt(g, StripText, i)
    {
      assert g[i] != '_';
    }
    RemoveAllAtFirstOccurrence(g, StripText, 4);
    assert g[9..] == [] + StripText;
    RemoveAllTrailing([], StripText);
  }

  /** Wherever the source lies, the paths of the two games both derive "pong". */
  lemma PongPathNames(sourcePath: string)
    ensures GetNameFromPaths([Join(sourcePath, "pong_game"), Join(sourcePath, "pong_game_game")], StripText)
         == ["pong", "pong"]
  {
    assert Sep !in "pong_game" && Sep !in "pong_game_game";
    BasenameOfJoin(sourcePath, "pong_game");
    BasenameOfJoin(sourcePath, "pong_game_game");
    PongStripsToPong();
    PongAgainStripsToPong();
  }

  /** The scan of a source holding both keeps both, in listing order. */
  lemma DuplicateScan(listing: Option<seq<Entry>>)
    requires listing == Some([Pong, PongAgain])
    ensures GameDirsOf(listing) == [Pong, PongAgain]
  {
    PongsAreGames();
    var es := [Pong, PongAgain];
    assert GameDirs(es[2..]) == [];
    assert GameDirs(es[1..]) == [PongAgain];
  }

  /** The two games derive the same name twice. */
  lemma DuplicateNames(cwd: string, source: string, listing: Option<seq<Entry>>)
    requires listing == Some([Pong, PongAgain])
    ensures DerivedNames(cwd, source, listing) == ["pong", "pong"]
  {
    DuplicateScan(listing);
    var sourcePath := Join(cwd, source);
    assert FindAllGamePaths(sourcePath, listing) == [Join(sourcePath, "pong_game"), Join(sourcePath, "pong_game_game")];
    PongPathNames(sourcePath);
  }

  /** Copying both as "pong" into an empty target leaves only the second, "pong_game_game". */
  lemma DuplicatePlaced()
    ensures Placed(map[], [Pong, PongAgain], ["pong", "pong"]) == map["pong" := PongAgain.node]
  {
    var placed := Placed(map[], [Pong, PongAgain], ["pong", "pong"]);
    LaterSourceWins(map[], [Pong, PongAgain], ["pong", "pong"], 0, 1);
    assert placed.Keys == {"pong"};
  }

  /** Each copy is built in turn in "<target>/pong": first with `a.go`, then, after the overwrite, with `b.go`. */
  lemma DuplicateBuilds(targetPath: string)
    ensures Builds(targetPath, [Pong, PongAgain], ["pong", "pong"])
         == [Invocation(Join(targetPath, "pong"), ["go", "build", "a.go"]),
             Invocation(Join(targetPath, "pong"), ["go", "build", "b.go"])]
  {
    var path := Join(targetPath, "pong");
    assert FileNames([Entry("a.go", File)]) == ["a.go"];
    assert IsCodeFile("a.go");
    assert CompileCommand + ["a.go"] == ["go", "build", "a.go"];
    assert FileNames([Entry("b.go", File)]) == ["b.go"];
    assert IsCodeFile("b.go");
    assert CompileCommand + ["b.go"] == ["go", "build", "b.go"];
    assert Builds(targetPath, [PongAgain], ["pong"]) == [Invocation(path, ["go", "build", "b.go"])];
  }

  /**
   * `main(source, target)` with "pong_game/a.go" and "pong_game_game/b.go" in
   * the source and no target yet: "<target>/pong" ends up a copy of
   * "pong_game_game", both copies are built, and the manifest is
   * `{"gameNames": ["pong", "pong"], "numberOfGames": 2}`.
   */
  lemma DuplicateEndToEnd(cwd: string, source: string, target: string, listing: Option<seq<Entry>>)
    requires listing == Some([Pong, PongAgain])
    ensures RunTool(cwd, source, target, listing, Missing)
         == Run(Tree(map["pong" := PongAgain.node, MetadataFileName := File]),
                [Invocation(Join(Join(cwd, target), "pong"), ["go", "build", "a.go"]),
                 Invocation(Join(Join(cwd, target), "pong"), ["go", "build", "b.go"])],
                Some(Manifest(["pong", "pong"], 2)),
                None)
  {
    var r := RunTool(cwd, source, target, listing, Missing);
    DuplicateScan(listing);
    DuplicateNames(cwd, source, listing);
    assert r.fault.None? by {
      assert !HitsFile(map[], ["pong", "pong"]);
      assert MetadataFileName !in ["pong", "pong"];
      RunToolSucceedsIff(cwd, source, target, listing, Missing);
    }
    RunToolOnSuccess(cwd, source, target, listing, Missing);
    assert r.target == Tree(map["pong" := PongAgain.node, MetadataFileName := File]) by {
      DuplicatePlaced();
    }
    assert r.builds == [Invocation(Join(Join(cwd, target), "pong"), ["go", "build", "a.go"]),
                        Invocation(Join(Join(cwd, target), "pong"), ["go", "build", "b.go"])] by {
      DuplicateBuilds(Join(cwd, target));
    }
  }

  /**
   * `main(source, target)` when the source cannot be listed: no game is found,
   * the target is still created, nothing is built, and the manifest is
   * `{"gameNames": [], "numberOfGames": 0}`.
   */
  lemma UnreadableSource(cwd: string, source: string, target: string, listing: Option<seq<Entry>>)
    requires listing == None
    ensures RunTool(cwd, source, target, listing, Missing)
         == Run(Tree(map[MetadataFileName := File]), [], Some(Manifest([], 0)), None)
  {
    assert DerivedNames(cwd, source, listing) == [];
    RunToolSucceedsIff(cwd, source, target, listing, Missing);
    RunToolOnSuccess(cwd, source, target, listing, Missing);
    assert Placed(map[], [], []) == map[];
  }
}
