/** `make_json_metadata_file`: the manifest record and writing it at the target root. */
module Metadata {
  import opened Wrappers
  import opened FileTree
  import opened Materializer

  /** The manifest's file name under the target root. */
  const MetadataFileName: string := "metadata.json"

  /** The JSON object `{"gameNames": ..., "numberOfGames": ...}` as a record. */
  datatype Manifest = Manifest(gameNames: seq<string>, numberOfGames: int)

  /** The manifest's count agrees with its list of names. */
  predicate Consistent(m: Manifest)
  {
    m.numberOfGames == |m.gameNames|
  }

  /**
   * `make_json_metadata_file(path, game_dirs)` with `path` the manifest file
   * under the target root: the file is created or overwritten, unless a
   * directory sits at that path, which makes `open` raise.
   */
  function WriteManifest(children: map<string, Node>, names: seq<string>): (r: Result<(map<string, Node>, Manifest), Fault>)
    ensures r.Failure? <==> MetadataFileName in children && children[MetadataFileName].Dir?
    ensures r.Failure? ==> r.error == ManifestPathIsADirectory
    ensures r.Success? ==> r.value.0.Keys == children.Keys + {MetadataFileName}
    ensures r.Success? ==> r.value.0[MetadataFileName] == File
    ensures r.Success? ==> forall k :: k in children && k != MetadataFileName ==> r.value.0[k] == children[k]
    ensures r.Success? ==> r.value.1.gameNames == names && Consistent(r.value.1)
  {
    if MetadataFileName in children && children[MetadataFileName].Dir? then Failure(ManifestPathIsADirectory)
    else Success((children[MetadataFileName := File], Manifest(names, |names|)))
  }
}
