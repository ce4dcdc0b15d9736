# Game collector: a Dafny model of `get_game_data.py`

`get_game_data.py source target` gathers the games out of a data directory.
It does five things:

1. Scans the top level of `source` for directories whose lower-cased name contains `game`.
2. Derives a short name for each one by removing every `_game` from its name.
3. Creates `target` and copies each game to `target/<name>`, replacing any earlier copy.
4. Runs `go build <file>` inside each copy, on the copy's first top-level `.go` file.
5. Writes `target/metadata.json` with the derived names and their count.

The model treats the file system as data:

- The source's first level is a listing of entries (`FileTree.Entry`, `FileTree.Node`). A source that cannot be listed is `None`, because `os.walk` then yields nothing.
- The target root is absent, a plain file, or a directory of named children (`Materializer.Target`).
- A build is an `Invocation`: a working directory and an argument vector. It is recorded, not run.

A run is one value `Pipeline.Run` holding:

- the target tree it leaves;
- the builds it ran, in order;
- the manifest it wrote;
- the error that stopped it, if any.

Three raises in the source become error values (`Materializer.Fault`):

- `shutil.rmtree` on a destination that is a plain file;
- copying or writing under a target root that is a plain file;
- `open(..., "w")` on a manifest path that is a directory.

Modules follow the script:

| module | what it holds |
|---|---|
| `Selection` | Keeping the present values of a sequence of options, with the positions they came from |
| `Text` | Lower-casing, `in`, `endswith`, and `str.replace(pat, "")` |
| `Paths` | `os.path.join` and the tail of `os.path.split` |
| `Scanner` | `find_all_game_paths` |
| `Namer` | `get_name_from_paths` |
| `Builder` | `compile_game_code` |
| `Materializer` | `create_dir` and `copy_and_overwrite` |
| `Metadata` | `make_json_metadata_file` |
| `Pipeline` | `main` |
| `Scenarios` | Concrete runs of `main` |

Two behaviours of the code are worth stating plainly:

- **Removal is global, not a suffix trim.** The header comment speaks of removing the "game" suffix (get_game_data.py:13), but `str.replace` removes every `"_game"` in one left-to-right pass. `"pong_game_game"` becomes `"pong"`, and `"game_game"` becomes `"game"`, because the leading `"game"` has no underscore (`Namer.StripDoubledExample`).
- **The builder looks only at top-level files.** Its walk breaks after the first level, so a `.go` file in a subdirectory is never built (`Builder.CompileGameCode`).

## Model

| member | source | states |
|---|---|---|
| Text.Lower | get_game_data.py:44 | `directory.lower()` keeps the length, leaves no upper-case letter, lowers each upper-case letter to its partner and keeps every other character |
| Text.LowerIdempotent | get_game_data.py:44 | Lower-casing an already lower-cased name changes nothing |
| Text.Contains | get_game_data.py:44 | `pattern in name`: the empty pattern is in every name, a pattern longer than the name in none, and a prefix of the name always is |
| Text.ContainsInLonger | get_game_data.py:44 | A name that contains the pattern still contains it with text added on either side |
| Text.EndsWith | get_game_data.py:89 | `name.endswith(suffix)` never holds for a suffix longer than the name |
| Text.EndsWithIffSplit | get_game_data.py:89 | `name.endswith(suffix)` holds exactly when the name is some text followed by the suffix |
| Text.RemoveAll | get_game_data.py:58 | The result of `str.replace(pat, "")` is never longer than the input |
| Text.RemoveAllUnchangedIff | get_game_data.py:58 | The name is left unchanged exactly when the pattern is empty or does not occur in it |
| Text.NoOccurrenceKeepsText | get_game_data.py:58 | A name with no occurrence of the pattern (or an empty pattern) is kept as it is |
| Text.OccurrenceShortens | get_game_data.py:58 | Any occurrence of a non-empty pattern makes the result strictly shorter than the name |
| Text.RemoveAllAtFirstOccurrence | get_game_data.py:58 | The leftmost occurrence is removed, and the text before it is kept verbatim. Scanning resumes after the occurrence, so the joined text is not rescanned |
| Text.RemoveAllTrailing | get_game_data.py:58 | A single trailing pattern after text that cannot start one is removed, and nothing else changes |
| Paths.Join | get_game_data.py:45 | `os.path.join`: an absolute second part replaces the first. Otherwise the result is the first part, then the second part, with exactly one separator between them when the first part is not empty, either supplied by `join` or already ending the first part |
| Paths.Basename | get_game_data.py:57 | The tail of `os.path.split` is the longest separator-free suffix of the path |
| Paths.BasenameOfJoin | get_game_data.py:45-57 | Splitting `join(dir, name)` gives back `name` for any separator-free `name` |
| FileTree.FileNames | get_game_data.py:87-88 | Every name in the `files` list of the first walk step is the name of an entry that is not a directory, and every such entry's name is listed |
| FileTree.FileNamesExact | get_game_data.py:87-88 | The `files` list holds the non-directory entries' names each once, in listing order, and nothing else. Position `k` is the `k`-th such entry, which fixes which file comes first |
| Scanner.IsGameDir | get_game_data.py:43-44 | A kept entry is a directory whose name is at least as long as "game" |
| Scanner.IsGameDirCaseless | get_game_data.py:43-44 | An entry is kept exactly when it is a directory and "game" appears in its name in any mix of upper and lower case |
| Scanner.GameDirs | get_game_data.py:43-44 | Every kept entry is a directory of the listing whose lower-cased name contains "game" |
| Scanner.FindAllGamePaths | get_game_data.py:32-51 | An unreadable source gives no paths. There is one path per kept directory, and splitting it gives back the directory's name |
| Scanner.GameDirsExact | get_game_data.py:38-49 | The kept entries are the listing filtered by the game-directory test: all of them, each once, in listing order |
| Scanner.FindAllGamePathsExact | get_game_data.py:32-51 | Game paths are `join(source, name)` for exactly the top-level game directories, in listing order, and each splits back to its name |
| Scanner.SelectionIgnoresContents | get_game_data.py:38-49 | The walk stops at the first level: listings with the same top-level names and kinds give the same paths, whatever lies deeper |
| Namer.GetNameFromPaths | get_game_data.py:54-61 | There is one name per path, in order. Each is the path's final component with every occurrence of the strip text removed |
| Namer.NameWithoutStripTextIsKept | get_game_data.py:57-59 | A final component that does not contain the strip text is used unchanged as the name |
| Namer.StripTrailingExample | get_game_data.py:58 | "hello_game" is renamed "hello" |
| Namer.StripUnderscoredExample | get_game_data.py:58 | "tic_tac_toe_game" is renamed "tic_tac_toe": earlier underscores do not matter |
| Namer.StripDoubledExample | get_game_data.py:58 | "game_game" is renamed "game", not "" |
| Namer.StripSinglePassExample | get_game_data.py:58 | "x_ga_gameme" is renamed "x_game": an occurrence formed by the removal survives |
| Namer.StripNotIdempotent | get_game_data.py:58 | Renaming is not idempotent: a second pass over "x_ga_gameme"'s name changes it again |
| Builder.IsCodeFile | get_game_data.py:89 | No name shorter than ".go" is a code file |
| Builder.IsCodeFileChars | get_game_data.py:89 | A name is a code file exactly when its last three characters are ".", "g" and "o" |
| Builder.FirstCodeFile | get_game_data.py:88-91 | Finds the position of the first file ending in ".go", and none exactly when no file ends in ".go" |
| Builder.CompileGameCode | get_game_data.py:85-99 | Nothing is run exactly when no top-level file ends in ".go". Otherwise `go build <f>` runs in the game's directory, where `f` is the first top-level ".go" file |
| Materializer.CreateDir | get_game_data.py:64-66 | Creates an empty directory only when nothing exists at the path, and leaves anything already there unchanged |
| Materializer.CreateDirIdempotent | get_game_data.py:64-66 | Creating the target twice equals creating it once |
| Materializer.CopyAndOverwrite | get_game_data.py:69-72 | Fails exactly when the destination is a plain file. Otherwise the destination holds a copy of the source, replacing what was there, and every other child is unchanged |
| Materializer.CopyAndOverwriteIdempotent | get_game_data.py:69-72 | Copying the same source onto the same destination twice leaves what one copy leaves |
| Metadata.WriteManifest | get_game_data.py:75-82 | Fails exactly when a directory sits at "metadata.json". Otherwise it writes that file, touches nothing else, and records the names and their count |
| Pipeline.Builds | get_game_data.py:123-126 | There is at most one build per game, so the builds never outnumber the names |
| Pipeline.BuildsExact | get_game_data.py:123-126 | The builds are, in order, one `go build` per game with a top-level ".go" file, run in that game's destination, and nothing else. Build `k` belongs to the `k`-th such game |
| Pipeline.BuildReadsCopy | get_game_data.py:125-126 | The build that follows a successful copy reads the copy, and the copy holds exactly the game's own entries |
| Pipeline.CopyAll | get_game_data.py:123-126 | The loop stops with an error exactly when some game name lands on a plain file. The error names the first such file, and every game before it was copied. Without an error every game is copied |
| Pipeline.CopyAllPlaces | get_game_data.py:123-126 | Without an error, the loop leaves the target as the placement of every game under its name over the old children |
| Pipeline.CopyAllPlacesDone | get_game_data.py:123-126 | With or without an error, the loop leaves exactly the games it copied placed over the old children (the later copy of a name winning). Nothing after the failing game is copied |
| Pipeline.LaterSourceWins | get_game_data.py:123-125 | When two games derive the same name, the later copy replaces the earlier one |
| Pipeline.Execute | get_game_data.py:121-129 | A run writes a manifest exactly when it does not stop with an error, and the target always exists afterwards. The manifest lists the names it was given, and its count matches them |
| Pipeline.ExecuteOutcome | get_game_data.py:121-129 | A run's success, final tree, builds and manifest, all stated in terms of what stood in the target before |
| Pipeline.ExecuteSucceedsIff | get_game_data.py:121-129 | A run succeeds exactly when: the target is not a file, no name hits a plain file, no game is named "metadata.json", and no directory already holds that name |
| Pipeline.ExecuteOnSuccess | get_game_data.py:121-129 | After success, the target holds every game under its name (the last game wins), the other children and the manifest file. There is one build per game with a ".go" file, and the manifest lists the names in order, duplicates included |
| Pipeline.ExecuteStopsAtFirstFile | get_game_data.py:123-126 | A game copied onto a plain file ends the run with that file's error. The target holds exactly the games before it, placed over the old children, only those were built, and no manifest is written |
| Pipeline.TargetFileStopsRun | get_game_data.py:121-125 | A target root that is a plain file stops the run before anything is copied, built or written |
| Pipeline.UnrelatedChildrenUntouched | get_game_data.py:121-129 | A successful run leaves every target child that no game and no manifest claims exactly as it was |
| Pipeline.GameNamedLikeManifestFails | get_game_data.py:123-129 | A game whose derived name is "metadata.json" always makes the run fail, and no manifest is written |
| Pipeline.PlacedFixpoint | get_game_data.py:69-72 | Placing games onto a tree that already holds each of them under its name changes nothing |
| Pipeline.PlacedTreeIsStable | get_game_data.py:69-72 | The tree a successful run leaves does not obstruct a second run, and placing the same games on it again leaves it unchanged |
| Pipeline.ExecuteTwiceIsIdempotent | get_game_data.py:121-129 | Running again over the tree a successful run left repeats that run exactly: same tree, builds and manifest |
| Pipeline.RunTool | get_game_data.py:113-129 | `main` writes a manifest exactly when it does not stop with an error, and the target always exists afterwards. The manifest lists the derived names, and its count matches them |
| Pipeline.RunToolSucceedsIff | get_game_data.py:113-129 | `main` succeeds exactly when nothing in the target stands in the way of the names it derives from the source |
| Pipeline.RunToolOnSuccess | get_game_data.py:113-129 | After `main` succeeds, the target holds each game directory of the source under its derived name, with one build per game that has a ".go" file. The manifest lists the derived names in scan order |
| Pipeline.RunTwiceIsIdempotent | get_game_data.py:113-129 | Running `main` again over the tree a successful run left repeats that run exactly: same tree, builds and manifest |
| Pipeline.DerivedNamesFromListing | get_game_data.py:118-119 | The manifest names are the top-level game directories' own names with "_game" removed, one each, in listing order |
| Scenarios.HelloIsGame | get_game_data.py:44 | "hello_game" and "Hello_GAME" both count as game directories |
| Scenarios.OthersAreNotGames | get_game_data.py:43-44 | Neither a directory without "game" nor a file whose name has it is a game |
| Scenarios.EndToEnd | get_game_data.py:113-129 | For a source of "hello_game/main.go", "not_a_match/x.txt" and "game_readme.txt": the target gets "hello" and "metadata.json", `go build main.go` runs in "target/hello", and the manifest is (["hello"], 1) |
| Scenarios.PongAgainStripsToPong | get_game_data.py:58 | "pong_game_game" loses both occurrences and is renamed "pong" |
| Scenarios.DuplicateEndToEnd | get_game_data.py:113-129 | "pong_game" and "pong_game_game" both become "pong". The second copy wins, both copies are built, and the manifest is (["pong", "pong"], 2) |
| Scenarios.UnreadableSource | get_game_data.py:113-129 | A source that cannot be listed gives an empty target with only the manifest, ([], 0), and no builds |

## Left out

- Listing order: `os.walk` returns entries in the order the operating system gives. The model takes that order as the given listing, and it assumes a copy lists its files in the source's order.
- Case folding: `str.lower` is modelled for ASCII letters only. Other characters are left as they are.
- The manifest's bytes: the JSON text written by `json.dump` is not modelled, only the record it encodes.
- Build outcomes: running `go build` (lines 102-109), its exit status, its printed result and the binary it leaves in the copy are not modelled. A build is recorded as the command and the directory it runs in.
- Working directory: saving and restoring the working directory around a build (lines 103-109) is not modelled, because no step of the model depends on it.
- Command line: the argument check and the call from the command line (lines 140-149) are not modelled. `Pipeline.RunTool` takes the working directory, source and target as parameters.
- Running the games (line 16): this step is listed as a requirement in the header but is not implemented in the code, so the model has nothing to follow.
- Derived names "", "." and "..": `join(target, name)` would then name the target root itself or its parent. The model treats each of them as an ordinary child name.
- Missing parent: `os.mkdir` fails when the target's parent directory is missing. The model's target root is a single node, and creating it never fails.
- Windows paths and case: `os.path` is modelled as POSIX `posixpath`, and target names are case-sensitive keys. On Windows, which the comment at line 118 shows, `ntpath` also splits on `\` and the file system ignores case. There "Pong_game" and "pong_game" (named "Pong" and "pong") land on one child, where the model keeps two.
- Overlapping source and target: the source listing and the target are independent inputs. When a game's source directory is also its destination (source and target the same directory, holding a game named "game"), `copy_and_overwrite` removes its own source and `copytree` raises (lines 70-72). The model reports success.
- Build launch failure: a `go` command that cannot be started makes `run` raise out of `main` before the manifest is written (lines 99-106). The model records each build as a command and never fails on it.
- Symbolic links, permissions and failures in the middle of `shutil.copytree` are not modelled.
- Path head: only the tail of `os.path.split` is modelled, because the head is discarded.
- Scanner.FindAllGamePaths: the statement that the final component gives back the directory's name assumes the name contains no "/". Entry names never do on POSIX.
