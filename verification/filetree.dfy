/**
 * A directory listing as plain data: what `os.walk` and `shutil.copytree`
 * would see on disk, without the disk.
 */
module FileTree {
  import opened Wrappers
  import opened Selection

  /** A directory entry: a named file, or a named directory with its own listing. */
  datatype Entry = Entry(name: string, node: Node)

  /** A plain file (anything that is not a directory), or a directory and its entries in listing order. */
  datatype Node = File | Dir(entries: seq<Entry>)

  /** The entries of a directory; a plain file has none. */
  function Contents(n: Node): seq<Entry>
  {
    match n
    case File => []
    case Dir(es) => es
  }

  /**
   * The `files` list of the first step of `os.walk` over a directory with
   * entries `es`: the names of the entries that are not directories, in listing order.
   */
  function FileNames(es: seq<Entry>): (r: seq<string>)
    ensures |r| <= |es|
    ensures forall n :: n in r ==> exists i :: 0 <= i < |es| && es[i].node.File? && es[i].name == n
    ensures forall i :: 0 <= i < |es| && es[i].node.File? ==> es[i].name in r
    decreases |es|
  {
    if |es| == 0 then []
    else
      var rest := FileNames(es[1..]);
      assert forall n :: n in rest ==> exists i :: 0 <= i < |es| && es[i].node.File? && es[i].name == n by {
        forall n | n in rest
          ensures exists i :: 0 <= i < |es| && es[i].node.File? && es[i].name == n
        {
          var i :| 0 <= i < |es[1..]| && es[1..][i].node.File? && es[1..][i].name == n;
          assert es[i + 1] == es[1..][i];
        }
      }
      assert forall i :: 1 <= i < |es| && es[i].node.File? ==> es[i].name in rest by {
        forall i | 1 <= i < |es| && es[i].node.File?
          ensures es[i].name in rest
        {
          assert es[1..][i - 1] == es[i];
        }
      }
      (if es[0].node.File? then [es[0].name] else []) + rest
  }

  /** An entry as the first walk step sees it: a file name, or nothing for a directory. */
  function FileOption(e: Entry): Option<string>
  {
    if e.node.File? then Some(e.name) else None
  }

  /** The walk's verdict on every entry, position by position. */
  function FileOptions(es: seq<Entry>): seq<Option<string>>
  {
    seq(|es|, i requires 0 <= i < |es| => FileOption(es[i]))
  }

  /** The `files` list is the present verdicts. */
  lemma {:induction false} FileNamesAreSomes(es: seq<Entry>)
    ensures FileNames(es) == Somes(FileOptions(es))
    decreases |es|
  {
    if |es| > 0 {
      FileNamesAreSomes(es[1..]);
      assert FileOptions(es)[1..] == FileOptions(es[1..]);
      assert FileOptions(es)[0] == FileOption(es[0]);
    }
  }

  /**
   * The `files` list holds the names of exactly the entries that are not
   * directories, each once, in listing order: position `k` of the list is the
   * `k`-th such entry, which fixes which file comes first.
   */
  lemma FileNamesExact(es: seq<Entry>) returns (idx: seq<int>)
    ensures SelectsSome(FileOptions(es), idx)
    ensures |idx| == |FileNames(es)|
    ensures forall k :: 0 <= k < |idx| ==> FileNames(es)[k] == es[idx[k]].name
  {
    idx := SomesExact(FileOptions(es));
    FileNamesAreSomes(es);
  }
}
