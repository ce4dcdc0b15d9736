/** The two POSIX path operations the tool uses: `os.path.join` and the tail of `os.path.split`. */
module Paths {
  import opened Text

  /** The POSIX path separator. */
  const Sep: char := '/'

  /**
   * `os.path.join(a, b)`: an absolute `b` replaces `a`; otherwise `b` is
   * appended, with a separator inserted unless `a` is empty or already ends in
   * one, so a non-empty `a` and `b` are always separated by exactly one `/`
   * that `join` supplies or `a` already had.
   */
  function Join(a: string, b: string): (r: string)
    ensures EndsWith(r, b)
    ensures |b| > 0 && b[0] == Sep ==> r == b
    ensures !(|b| > 0 && b[0] == Sep) ==> |a| <= |r| && r[..|a|] == a && |r| <= |a| + 1 + |b|
    ensures !(|b| > 0 && b[0] == Sep) ==> (r == a + b || r == a + [Sep] + b) && (|a| > 0 ==> r[|r| - |b| - 1] == Sep)
    ensures !(|b| > 0 && b[0] == Sep) && (|a| == 0 || a[|a| - 1] == Sep) ==> r == a + b
  {
    if |b| > 0 && b[0] == Sep then b
    else if |a| == 0 || a[|a| - 1] == Sep then a + b
    else a + [Sep] + b
  }

  /** `r` is the final component of `p`: the longest suffix of `p` free of separators. */
  predicate IsBasename(p: string, r: string)
  {
    && |r| <= |p|
    && r == p[|p| - |r|..]
    && Sep !in r
    && (|r| == |p| || p[|p| - |r| - 1] == Sep)
  }

  /** The second half of `os.path.split(p)`: everything after the last separator. */
  function Basename(p: string): (r: string)
    ensures IsBasename(p, r)
    decreases |p|
  {
    if |p| == 0 || p[|p| - 1] == Sep then ""
    else
      var init := Basename(p[..|p| - 1]);
      assert p[|p| - |init| - 1..] == p[..|p| - 1][|p| - 1 - |init|..] + [p[|p| - 1]];
      init + [p[|p| - 1]]
  }

  /**
   * Appending a separator-free name to a path that is empty or ends in a
   * separator makes that name the final component.
   */
  lemma {:induction false} BasenameAfterSep(x: string, b: string)
    requires |x| == 0 || x[|x| - 1] == Sep
    requires Sep !in b
    ensures Basename(x + b) == b
    decreases |b|
  {
    if |b| > 0 {
      var p := x + b;
      var init, last := b[..|b| - 1], b[|b| - 1];
      assert p[|p| - 1] == last && last != Sep;
      assert p[..|p| - 1] == x + init;
      BasenameAfterSep(x, init);
      assert Basename(p) == init + [last];
      assert init + [last] == b;
    } else {
      assert x + b == x;
    }
  }

  /** Joining a separator-free name onto any directory and splitting it again gives the name back. */
  lemma BasenameOfJoin(a: string, b: string)
    requires Sep !in b
    ensures Basename(Join(a, b)) == b
  {
    if |a| == 0 || a[|a| - 1] == Sep {
      BasenameAfterSep(a, b);
    } else {
      assert Join(a, b) == (a + [Sep]) + b;
      BasenameAfterSep(a + [Sep], b);
    }
  }
}
