/**
 * The few string operations of Python's `str` the tool relies on: `lower`,
 * the `in` test for substrings, `endswith` and `replace(pat, "")`.
 */
module Text {

  /** Lower-cases one ASCII letter and leaves every other character alone. */
  function LowerChar(c: char): char
  {
    if 'A' <= c <= 'Z' then (c as int + 32) as char else c
  }

  /**
   * `s.lower()` restricted to ASCII letters: same length, no upper-case letter
   * left, each upper-case letter replaced by its lower-case partner and every
   * other character kept.
   */
  function Lower(s: string): (r: string)
    ensures |r| == |s|
    ensures forall i :: 0 <= i < |r| ==> !('A' <= r[i] <= 'Z')
    ensures forall i :: 0 <= i < |s| && !('A' <= s[i] <= 'Z') ==> r[i] == s[i]
    ensures forall i :: 0 <= i < |s| && 'A' <= s[i] <= 'Z' ==> r[i] as int == s[i] as int + 32
  {
    seq(|s|, i requires 0 <= i < |s| => LowerChar(s[i]))
  }

  /** Lower-casing twice is lower-casing once. */
  lemma LowerIdempotent(s: string)
    ensures Lower(Lower(s)) == Lower(s)
  {
    LowerOfLowercase(Lower(s));
  }

  /** Text without upper-case ASCII letters is its own lower-case form. */
  lemma LowerOfLowercase(s: string)
    requires forall i :: 0 <= i < |s| ==> !('A' <= s[i] <= 'Z')
    ensures Lower(s) == s
  {
  }

  /** `pat` occurs in `s` starting at index `i`. */
  predicate OccursAt(s: string, pat: string, i: int)
  {
    0 <= i && i + |pat| <= |s| && s[i..i + |pat|] == pat
  }

  /**
   * Python's `pat in s`: `pat` occurs somewhere in `s`. The empty pattern
   * occurs in every string, a pattern longer than `s` in none, and a prefix
   * of `s` always occurs.
   */
  function Contains(s: string, pat: string): (r: bool)
    ensures r ==> |pat| <= |s|
    ensures |pat| == 0 ==> r
    ensures |pat| <= |s| && s[..|pat|] == pat ==> r
  {
    assert |pat| <= |s| && s[..|pat|] == pat ==> OccursAt(s, pat, 0);
    exists i :: 0 <= i <= |s| && OccursAt(s, pat, i)
  }

  /** An occurrence in `s` is still an occurrence once text is added on either side. */
  lemma ContainsInLonger(x: string, s: string, y: string, pat: string)
    requires Contains(s, pat)
    ensures Contains(x + s + y, pat)
  {
    var i :| 0 <= i <= |s| && OccursAt(s, pat, i);
    assert (x + s + y)[|x| + i..|x| + i + |pat|] == s[i..i + |pat|];
    assert OccursAt(x + s + y, pat, |x| + i);
  }

  /** Python's `s.endswith(suffix)`; a suffix is never longer than the text. */
  function EndsWith(s: string, suffix: string): (r: bool)
    ensures r ==> |suffix| <= |s|
  {
    |suffix| <= |s| && s[|s| - |suffix|..] == suffix
  }

  /** `s` ends with `suffix` exactly when `s` is some text followed by `suffix`. */
  lemma EndsWithIffSplit(s: string, suffix: string)
    ensures EndsWith(s, suffix) <==> |suffix| <= |s| && s == s[..|s| - |suffix|] + suffix
  {
    if |suffix| <= |s| {
      assert s == s[..|s| - |suffix|] + s[|s| - |suffix|..];
    }
  }

  /**
   * Python's `s.replace(pat, "")`. The scan runs left to right; each occurrence
   * of `pat` is dropped and the scan resumes just after it, so occurrences never
   * overlap and text that a removal brings together is not scanned again. An
   * empty `pat` leaves `s` unchanged.
   */
  function RemoveAll(s: string, pat: string): (r: string)
    ensures |r| <= |s|
    decreases |s|
  {
    if |pat| == 0 || |s| < |pat| then s
    else if s[..|pat|] == pat then RemoveAll(s[|pat|..], pat)
    else [s[0]] + RemoveAll(s[1..], pat)
  }

  /** Occurrences in the tail of `s` are the occurrences in `s` shifted by one. */
  lemma OccursAtTail(s: string, pat: string, i: int)
    requires |s| > 0 && 0 <= i
    ensures OccursAt(s[1..], pat, i) <==> OccursAt(s, pat, i + 1)
  {
    if i + |pat| <= |s| - 1 {
      assert s[1..][i..i + |pat|] == s[i + 1..i + 1 + |pat|];
    }
  }

  /** Without an occurrence of `pat`, the removal returns its input unchanged. */
  lemma {:induction false} NoOccurrenceKeepsText(s: string, pat: string)
    requires |pat| == 0 || !Contains(s, pat)
    ensures RemoveAll(s, pat) == s
    decreases |s|
  {
    if |pat| == 0 || |s| < |pat| {
    } else {
      assert !OccursAt(s, pat, 0);
      assert s[..|pat|] != pat by { assert s[0..|pat|] == s[..|pat|]; }
      forall i | 0 <= i <= |s[1..]|
        ensures !OccursAt(s[1..], pat, i)
      {
        OccursAtTail(s, pat, i);
      }
      NoOccurrenceKeepsText(s[1..], pat);
      assert [s[0]] + s[1..] == s;
    }
  }

  /** An occurrence of a non-empty `pat` makes the result strictly shorter. */
  lemma {:induction false} OccurrenceShortens(s: string, pat: string, i: int)
    requires |pat| > 0 && OccursAt(s, pat, i)
    ensures |RemoveAll(s, pat)| < |s|
    decreases |s|
  {
    if s[..|pat|] != pat {
      assert i != 0 by { assert s[0..|pat|] == s[..|pat|]; }
      OccursAtTail(s, pat, i - 1);
      OccurrenceShortens(s[1..], pat, i - 1);
    }
  }

  /** The removal leaves `s` unchanged exactly when `pat` is empty or absent from `s`. */
  lemma RemoveAllUnchangedIff(s: string, pat: string)
    ensures RemoveAll(s, pat) == s <==> (|pat| == 0 || !Contains(s, pat))
  {
    if |pat| == 0 || !Contains(s, pat) {
      NoOccurrenceKeepsText(s, pat);
    } else {
      var i :| 0 <= i <= |s| && OccursAt(s, pat, i);
      OccurrenceShortens(s, pat, i);
    }
  }

  /** One step of the scan where no occurrence starts: the first character is kept. */
  lemma RemoveAllKeepStep(s: string, pat: string)
    requires |pat| > 0 && |s| > 0 && !OccursAt(s, pat, 0)
    ensures RemoveAll(s, pat) == [s[0]] + RemoveAll(s[1..], pat)
  {
    if |s| >= |pat| {
      assert s[0..|pat|] == s[..|pat|];
    }
  }

  /** One step of the scan where an occurrence starts: it is dropped. */
  lemma RemoveAllDropStep(s: string, pat: string)
    requires |pat| > 0 && OccursAt(s, pat, 0)
    ensures RemoveAll(s, pat) == RemoveAll(s[|pat|..], pat)
  {
    assert s[0..|pat|] == s[..|pat|];
  }

  /** A first occurrence at `j > 0` is, in the tail, a first occurrence at `j - 1`. */
  lemma FirstOccurrenceInTail(s: string, pat: string, j: int)
    requires 0 < j && OccursAt(s, pat, j)
    requires forall i :: 0 <= i < j ==> !OccursAt(s, pat, i)
    ensures OccursAt(s[1..], pat, j - 1)
    ensures forall i :: 0 <= i < j - 1 ==> !OccursAt(s[1..], pat, i)
  {
    OccursAtTail(s, pat, j - 1);
    forall i | 0 <= i < j - 1
      ensures !OccursAt(s[1..], pat, i)
    {
      OccursAtTail(s, pat, i);
    }
  }

  /**
   * The removal finds the leftmost occurrence, keeps the text before it, and
   * continues after the occurrence: the text the removal joins is not rescanned.
   */
  lemma {:induction false} RemoveAllAtFirstOccurrence(s: string, pat: string, j: int)
    requires |pat| > 0 && OccursAt(s, pat, j)
    requires forall i :: 0 <= i < j ==> !OccursAt(s, pat, i)
    ensures RemoveAll(s, pat) == s[..j] + RemoveAll(s[j + |pat|..], pat)
    decreases j
  {
    if j == 0 {
      RemoveAllAtStart(s, pat);
    } else {
      FirstOccurrenceInTail(s, pat, j);
      RemoveAllAtFirstOccurrence(s[1..], pat, j - 1);
      RemoveAllAtLaterOccurrence(s, pat, j);
    }
  }

  /** When the leftmost occurrence is not at the start, the head is kept and the tail's removal follows. */
  lemma RemoveAllAtLaterOccurrence(s: string, pat: string, j: int)
    requires |pat| > 0 && 0 < j && OccursAt(s, pat, j)
    requires forall i :: 0 <= i < j ==> !OccursAt(s, pat, i)
    requires RemoveAll(s[1..], pat) == s[1..][..j - 1] + RemoveAll(s[1..][j - 1 + |pat|..], pat)
    ensures RemoveAll(s, pat) == s[..j] + RemoveAll(s[j + |pat|..], pat)
  {
    var t := s[1..];
    var after := RemoveAll(s[j + |pat|..], pat);
    assert RemoveAll(s, pat) == [s[0]] + RemoveAll(t, pat) by {
      RemoveAllKeepStep(s, pat);
    }
    assert RemoveAll(t, pat) == t[..j - 1] + after by {
      assert t[j - 1 + |pat|..] == s[j + |pat|..];
    }
    ConsPrefix(s, j, after);
  }

  /** An occurrence at the very start is dropped and nothing before it is kept. */
  lemma RemoveAllAtStart(s: string, pat: string)
    requires |pat| > 0 && OccursAt(s, pat, 0)
    ensures RemoveAll(s, pat) == s[..0] + RemoveAll(s[|pat|..], pat)
  {
    RemoveAllDropStep(s, pat);
    assert s[..0] + RemoveAll(s[|pat|..], pat) == RemoveAll(s[|pat|..], pat);
  }

  /** Putting the head back on a prefix of the tail, followed by `x`, gives the prefix of the whole followed by `x`. */
  lemma ConsPrefix(s: string, j: int, x: string)
    requires 0 < j <= |s|
    ensures [s[0]] + (s[1..][..j - 1] + x) == s[..j] + x
  {
    assert [s[0]] + s[1..][..j - 1] == s[..j];
  }

  /**
   * A single trailing copy of `pat` is all that is removed when the text before
   * it cannot start an occurrence (it never contains the first character of `pat`).
   */
  lemma {:induction false} RemoveAllTrailing(x: string, pat: string)
    requires |pat| > 0 && pat[0] !in x
    ensures RemoveAll(x + pat, pat) == x
    decreases |x|
  {
    var s := x + pat;
    if |x| == 0 {
      assert s == pat;
      assert s[..|pat|] == pat;
      assert s[|pat|..] == "";
    } else {
      assert s[..|pat|] != pat by { assert s[..|pat|][0] == x[0]; }
      assert s[1..] == x[1..] + pat;
      RemoveAllTrailing(x[1..], pat);
      assert [x[0]] + x[1..] == x;
    }
  }

  /** Text that never contains the first character of a non-empty pattern cannot contain the pattern. */
  lemma AbsentFirstCharNoOccurrence(s: string, pat: string)
    requires |pat| > 0 && pat[0] !in s
    ensures !Contains(s, pat)
  {
    forall i | 0 <= i <= |s|
      ensures !OccursAt(s, pat, i)
    {
      if i + |pat| <= |s| {
        assert s[i..i + |pat|][0] == s[i];
      }
    }
  }
}
