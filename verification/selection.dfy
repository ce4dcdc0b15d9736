/**
 * Keeping the present values of a sequence of options, in order: the shape
 * shared by the scan's filter, the walk's `files` list and the build loop.
 */
module Selection {
  import opened Wrappers

  /** The present values of `os`, in order. */
  function Somes<T>(os: seq<Option<T>>): (r: seq<T>)
    ensures |r| <= |os|
    decreases |os|
  {
    if |os| == 0 then [] else OptionToSeq(os[0]) + Somes(os[1..])
  }

  /** `idx` lists, in increasing order, exactly the positions of `os` that hold a value. */
  predicate SelectsSome<T>(os: seq<Option<T>>, idx: seq<int>)
  {
    && (forall k :: 0 <= k < |idx| ==> 0 <= idx[k] < |os| && os[idx[k]].Some?)
    && (forall k1, k2 :: 0 <= k1 < k2 < |idx| ==> idx[k1] < idx[k2])
    && (forall j :: 0 <= j < |os| && os[j].Some? ==> j in idx)
  }

  /** Every position moved one place to the right. */
  function Shift(idx: seq<int>): (r: seq<int>)
    ensures |r| == |idx|
    ensures forall k :: 0 <= k < |idx| ==> r[k] == idx[k] + 1
  {
    seq(|idx|, k requires 0 <= k < |idx| => idx[k] + 1)
  }

  /** A selection of the tail, shifted, selects the present values of `os` after its head. */
  lemma ShiftSelects<T>(os: seq<Option<T>>, tail: seq<int>)
    requires |os| > 0 && SelectsSome(os[1..], tail)
    ensures forall k :: 0 <= k < |tail| ==> 1 <= Shift(tail)[k] < |os| && os[Shift(tail)[k]].Some?
    ensures forall k1, k2 :: 0 <= k1 < k2 < |tail| ==> Shift(tail)[k1] < Shift(tail)[k2]
    ensures forall j :: 1 <= j < |os| && os[j].Some? ==> j in Shift(tail)
  {
    var shifted := Shift(tail);
    forall k | 0 <= k < |tail|
      ensures 1 <= shifted[k] < |os| && os[shifted[k]].Some?
    {
      assert os[1..][tail[k]] == os[shifted[k]];
    }
    forall j | 1 <= j < |os| && os[j].Some?
      ensures j in shifted
    {
      assert os[1..][j - 1] == os[j];
      var k :| 0 <= k < |tail| && tail[k] == j - 1;
      assert shifted[k] == j;
    }
  }

  /** A present head is selected at position 0, ahead of the shifted tail selection. */
  lemma HeadSelects<T>(os: seq<Option<T>>, tail: seq<int>)
    requires |os| > 0 && os[0].Some? && SelectsSome(os[1..], tail)
    ensures SelectsSome(os, [0] + Shift(tail))
  {
    ShiftSelects(os, tail);
    HeadThenShiftInRange(os, Shift(tail));
    HeadThenShiftIncreasing(Shift(tail), |os|);
    HeadThenShiftComplete(os, Shift(tail));
  }

  /** Position 0 of a present value followed by positions of present values are all positions of present values. */
  lemma HeadThenShiftInRange<T>(os: seq<Option<T>>, shifted: seq<int>)
    requires |os| > 0 && os[0].Some?
    requires forall k :: 0 <= k < |shifted| ==> 1 <= shifted[k] < |os| && os[shifted[k]].Some?
    ensures forall k :: 0 <= k < |[0] + shifted| ==> 0 <= ([0] + shifted)[k] < |os| && os[([0] + shifted)[k]].Some?
  {
    var idx := [0] + shifted;
    forall k | 0 <= k < |idx|
      ensures 0 <= idx[k] < |os| && os[idx[k]].Some?
    {
      if k > 0 {
        assert idx[k] == shifted[k - 1];
      }
    }
  }

  /** Position 0 followed by positions that are all at least 1 and increasing is still increasing. */
  lemma HeadThenShiftIncreasing(shifted: seq<int>, n: int)
    requires forall k :: 0 <= k < |shifted| ==> 1 <= shifted[k] < n
    requires forall k1, k2 :: 0 <= k1 < k2 < |shifted| ==> shifted[k1] < shifted[k2]
    ensures forall k1, k2 :: 0 <= k1 < k2 < |[0] + shifted| ==> ([0] + shifted)[k1] < ([0] + shifted)[k2]
  {
    var idx := [0] + shifted;
    forall k1, k2 | 0 <= k1 < k2 < |idx|
      ensures idx[k1] < idx[k2]
    {
      assert idx[k2] == shifted[k2 - 1];
      if k1 > 0 {
        assert idx[k1] == shifted[k1 - 1];
      }
    }
  }

  /** With a present head, position 0 and the tail positions cover every present value. */
  lemma HeadThenShiftComplete<T>(os: seq<Option<T>>, shifted: seq<int>)
    requires forall j :: 1 <= j < |os| && os[j].Some? ==> j in shifted
    ensures forall j :: 0 <= j < |os| && os[j].Some? ==> j in [0] + shifted
  {
    forall j | 0 <= j < |os| && os[j].Some?
      ensures j in [0] + shifted
    {
      if j > 0 {
        assert j in shifted;
      }
    }
  }

  /** What a selection of the tail picks out, shifted, is the same values of the whole sequence. */
  lemma ShiftPicksSame<T>(os: seq<Option<T>>, tail: seq<int>, rest: seq<T>)
    requires |os| > 0 && |rest| == |tail|
    requires forall k :: 0 <= k < |tail| ==> 0 <= tail[k] < |os| - 1 && os[1..][tail[k]].Some? && rest[k] == os[1..][tail[k]].value
    ensures forall k :: 0 <= k < |tail| ==> 0 <= Shift(tail)[k] < |os| && os[Shift(tail)[k]].Some? && rest[k] == os[Shift(tail)[k]].value
  {
    forall k | 0 <= k < |tail|
      ensures os[Shift(tail)[k]].Some? && rest[k] == os[Shift(tail)[k]].value
    {
      assert os[1..][tail[k]] == os[tail[k] + 1];
    }
  }

  /** The head's value followed by the values at the shifted positions are the values at position 0 and those positions. */
  lemma HeadThenShiftPicks<T>(os: seq<Option<T>>, shifted: seq<int>, rest: seq<T>)
    requires |os| > 0 && os[0].Some? && |rest| == |shifted|
    requires forall k :: 0 <= k < |shifted| ==> 0 <= shifted[k] < |os| && os[shifted[k]].Some? && rest[k] == os[shifted[k]].value
    ensures forall k :: 0 <= k < |[0] + shifted| ==> ([os[0].value] + rest)[k] == os[([0] + shifted)[k]].value
  {
    forall k | 0 <= k < |[0] + shifted|
      ensures ([os[0].value] + rest)[k] == os[([0] + shifted)[k]].value
    {
      if k > 0 {
        assert ([os[0].value] + rest)[k] == rest[k - 1];
        assert ([0] + shifted)[k] == shifted[k - 1];
      }
    }
  }

  /**
   * `Somes` is the filter of `os` by presence: it holds the value of every
   * present position, each once, in order, and nothing else.
   */
  lemma {:induction false} SomesExact<T>(os: seq<Option<T>>) returns (idx: seq<int>)
    ensures SelectsSome(os, idx)
    ensures |idx| == |Somes(os)|
    ensures forall k :: 0 <= k < |idx| ==> Somes(os)[k] == os[idx[k]].value
    decreases |os|
  {
    if |os| == 0 {
      idx := [];
    } else {
      var tail := SomesExact(os[1..]);
      var rest := Somes(os[1..]);
      if os[0].Some? {
        idx := [0] + Shift(tail);
        assert SelectsSome(os, idx) by {
          HeadSelects(os, tail);
        }
        assert Somes(os) == [os[0].value] + rest;
        assert forall k :: 0 <= k < |idx| ==> ([os[0].value] + rest)[k] == os[idx[k]].value by {
          ShiftPicksSame(os, tail, rest);
          HeadThenShiftPicks(os, Shift(tail), rest);
        }
      } else {
        idx := Shift(tail);
        assert SelectsSome(os, idx) by {
          ShiftSelects(os, tail);
        }
        assert Somes(os) == rest;
        assert forall k :: 0 <= k < |idx| ==> rest[k] == os[idx[k]].value by {
          ShiftPicksSame(os, tail, rest);
        }
      }
    }
  }
}
