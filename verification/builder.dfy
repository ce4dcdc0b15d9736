/**
 * `compile_game_code`: choose the first top-level `.go` file of a copied game
 * and form the `go build` command for it. Running the command is outside the model.
 */
module Builder {
  import opened Wrappers
  import opened Text
  import opened FileTree

  /** `GAME_CODE_EXTENSION`. */
  const CodeExtension: string := ".go"

  /** `GAME_COMPILE_COMMAND`: the command the file name is appended to. */
  const CompileCommand: seq<string> := ["go", "build"]

  /** A command to run (`argv`) and the directory to run it in (`cwd`). */
  datatype Invocation = Invocation(cwd: string, argv: seq<string>)

  /** `file.endswith(".go")`; no name shorter than the extension qualifies. */
  function IsCodeFile(f: string): (r: bool)
    ensures r ==> |f| >= |CodeExtension|
  {
    EndsWith(f, CodeExtension)
  }

  /** A name is a code file exactly when its last three characters are `.`, `g` and `o`. */
  lemma IsCodeFileChars(f: string)
    ensures IsCodeFile(f) <==> |f| >= 3 && f[|f| - 3] == '.' && f[|f| - 2] == 'g' && f[|f| - 1] == 'o'
  {
    if |f| >= 3 {
      assert f[|f| - 3..] == [f[|f| - 3], f[|f| - 2], f[|f| - 1]];
    }
  }

  /** The position of the first file name ending in the code extension, if any. */
  function FirstCodeFile(files: seq<string>): (r: Option<nat>)
    ensures r.None? <==> forall i :: 0 <= i < |files| ==> !IsCodeFile(files[i])
    ensures r.Some? ==> r.value < |files| && IsCodeFile(files[r.value])
    ensures r.Some? ==> forall i :: 0 <= i < r.value ==> !IsCodeFile(files[i])
    decreases |files|
  {
    if |files| == 0 then None
    else if IsCodeFile(files[0]) then Some(0)
    else
      match FirstCodeFile(files[1..])
      case None => None
      case Some(i) => Some(i + 1)
  }

  /**
   * `compile_game_code(path)` for a game directory whose entries are `copy`:
   * the walk stops after the top level, so only top-level files are considered;
   * with no `.go` file nothing is run, otherwise `go build <file>` runs in `path`.
   */
  function CompileGameCode(path: string, copy: seq<Entry>): (r: Option<Invocation>)
    ensures r.None? <==> forall i :: 0 <= i < |FileNames(copy)| ==> !IsCodeFile(FileNames(copy)[i])
    ensures r.Some? ==> r.value.cwd == path && |r.value.argv| == 3 && r.value.argv[..2] == CompileCommand
    ensures r.Some? ==> exists i :: (&& 0 <= i < |FileNames(copy)|
                                     && r.value.argv[2] == FileNames(copy)[i]
                                     && IsCodeFile(FileNames(copy)[i])
                                     && forall j :: 0 <= j < i ==> !IsCodeFile(FileNames(copy)[j]))
  {
    match FirstCodeFile(FileNames(copy))
    case None => None
    case Some(i) =>
      assert IsCodeFile(FileNames(copy)[i]);
      assert !(forall j :: 0 <= j < |FileNames(copy)| ==> !IsCodeFile(FileNames(copy)[j]));
      Some(Invocation(path, CompileCommand + [FileNames(copy)[i]]))
  }
}
