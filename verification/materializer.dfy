/**
 * The target side of the file system and the two operations `main` performs on
 * it: `create_dir` for the target root and `copy_and_overwrite` for each game.
 */
module Materializer {
  import opened Wrappers
  import opened FileTree

  /** The target root: absent, present but not a directory, or a directory with named children. */
  datatype Target = Missing | NotADirectory | Tree(children: map<string, Node>)

  /** The errors the modelled file-system calls raise; each aborts the run. */
  datatype Fault =
    | TargetNotADirectory          // the target root is a plain file: copying or writing under it fails
    | DestinationIsAFile(name: string)  // `shutil.rmtree` refuses a destination that is a plain file
    | ManifestPathIsADirectory     // `open(..., "w")` refuses a directory at the manifest's path

  /** `create_dir(path)`: make the target root unless something already exists there. */
  function CreateDir(t: Target): (r: Target)
    ensures !r.Missing?
    ensures !t.Missing? ==> r == t
    ensures t.Missing? ==> r == Tree(map[])
  {
    if t.Missing? then Tree(map[]) else t
  }

  /** Creating the target root twice is the same as creating it once. */
  lemma CreateDirIdempotent(t: Target)
    ensures CreateDir(CreateDir(t)) == CreateDir(t)
  {
  }

  /**
   * `copy_and_overwrite(source, dest)` where `dest` is the child `name` of the
   * target root and `contents` is the source directory's listing: an existing
   * directory at `dest` is removed, then the source is copied there. An
   * existing plain file makes `shutil.rmtree` raise.
   */
  function CopyAndOverwrite(children: map<string, Node>, name: string, contents: seq<Entry>): (r: Result<map<string, Node>, Fault>)
    ensures r.Failure? <==> name in children && children[name].File?
    ensures r.Failure? ==> r.error == DestinationIsAFile(name)
    ensures r.Success? ==> r.value.Keys == children.Keys + {name}
    ensures r.Success? ==> r.value[name] == Dir(contents)
    ensures r.Success? ==> forall k :: k in children && k != name ==> r.value[k] == children[k]
  {
    if name in children && children[name].File? then Failure(DestinationIsAFile(name))
    else Success(children[name := Dir(contents)])
  }

  /** Copying the same source onto the same name twice leaves what one copy leaves. */
  lemma CopyAndOverwriteIdempotent(children: map<string, Node>, name: string, contents: seq<Entry>)
    ensures CopyAndOverwrite(children, name, contents).Success? ==>
      CopyAndOverwrite(CopyAndOverwrite(children, name, contents).value, name, contents)
        == CopyAndOverwrite(children, name, contents)
  {
    var once := children[name := Dir(contents)];
    assert once[name := Dir(contents)] == once;
  }
}
