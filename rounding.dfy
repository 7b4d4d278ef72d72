/** Nearest-tick rounding (`round_to_array` in seismiqb/src/utils.py). */
module Rounding {
  import opened Basics

  function Abs(x: int): nat {
    if x < 0 then -x else x
  }

  /** The index `numpy.searchsorted(ticks, p)` returns (side 'left'): the first tick not below `p`. */
  method SearchSorted(ticks: seq<int>, p: int) returns (ix: nat)
    requires Sorted(ticks)
    ensures ix <= |ticks|
    ensures forall k :: 0 <= k < ix ==> ticks[k] < p
    ensures forall k :: ix <= k < |ticks| ==> p <= ticks[k]
  {
    var lo, hi := 0, |ticks|;
    while lo < hi
      invariant 0 <= lo <= hi <= |ticks|
      invariant forall k :: 0 <= k < lo ==> ticks[k] < p
      invariant forall k :: hi <= k < |ticks| ==> p <= ticks[k]
    {
      var mid := (lo + hi) / 2;
      if ticks[mid] < p {
        lo := mid + 1;
      } else {
        hi := mid;
      }
    }
    ix := lo;
  }

  /** The index of the first tick not below `p`, as a value. */
  function FirstAtLeast(ticks: seq<int>, p: int): (ix: nat)
    ensures ix <= |ticks|
  {
    if |ticks| == 0 || p <= ticks[0] then 0 else 1 + FirstAtLeast(ticks[1..], p)
  }

  lemma {:induction false} FirstAtLeastIsSearchSorted(ticks: seq<int>, p: int, ix: nat)
    requires ix <= |ticks|
    requires forall k :: 0 <= k < ix ==> ticks[k] < p
    requires forall k :: ix <= k < |ticks| ==> p <= ticks[k]
    ensures FirstAtLeast(ticks, p) == ix
  {
    if |ticks| > 0 && ix > 0 {
      FirstAtLeastIsSearchSorted(ticks[1..], p, ix - 1);
    }
  }

  lemma {:induction false} FirstAtLeastStops(ticks: seq<int>, p: int, k: nat)
    requires k < |ticks| && p <= ticks[k]
    ensures FirstAtLeast(ticks, p) <= k
  {
    if p > ticks[0] {
      FirstAtLeastStops(ticks[1..], p, k - 1);
    }
  }

  /**
   * The tick a single value is rounded to: the first tick when the value is at or below it,
   * the last tick when at or above it, and otherwise the closer of the two ticks around it,
   * the upper one on a tie.
   */
  function Nearest(ticks: seq<int>, p: int): int
    requires |ticks| > 0
  {
    if p <= ticks[0] then ticks[0]
    else if p >= ticks[|ticks| - 1] then ticks[|ticks| - 1]
    else
      FirstAtLeastStops(ticks, p, |ticks| - 1);
      var ix := FirstAtLeast(ticks, p);
      if Abs(ticks[ix] - p) <= Abs(ticks[ix - 1] - p) then ticks[ix] else ticks[ix - 1]
  }

  lemma {:induction false} FirstAtLeastBrackets(ticks: seq<int>, p: int)
    requires |ticks| > 0 && Sorted(ticks)
    requires ticks[0] < p < ticks[|ticks| - 1]
    ensures 0 < FirstAtLeast(ticks, p) < |ticks|
    ensures ticks[FirstAtLeast(ticks, p) - 1] < p <= ticks[FirstAtLeast(ticks, p)]
    ensures forall k :: 0 <= k < FirstAtLeast(ticks, p) ==> ticks[k] < p
    ensures forall k :: FirstAtLeast(ticks, p) <= k < |ticks| ==> p <= ticks[k]
  {
    var t := ticks[1..];
    if p <= t[0] {
      assert FirstAtLeast(t, p) == 0;
    } else {
      FirstAtLeastBrackets(t, p);
    }
  }

  /** Every rounded value is one of the ticks. */
  lemma NearestIsTick(ticks: seq<int>, p: int)
    requires |ticks| > 0 && Sorted(ticks)
    ensures Nearest(ticks, p) in ticks
  {
    if ticks[0] < p < ticks[|ticks| - 1] {
      FirstAtLeastBrackets(ticks, p);
    }
  }

  /** Values outside the tick range are clamped to the end ticks. */
  lemma NearestClamps(ticks: seq<int>, p: int)
    requires |ticks| > 0 && Sorted(ticks)
    ensures p <= ticks[0] ==> Nearest(ticks, p) == ticks[0]
    ensures p >= ticks[|ticks| - 1] ==> Nearest(ticks, p) == ticks[|ticks| - 1]
  {
  }

  /**
   * The rounded value is a tick closest to `p`, and among the ticks equally close it is the
   * greatest one: exact ties go to the upper tick.
   */
  lemma NearestIsGreatestClosest(ticks: seq<int>, p: int, k: nat)
    requires |ticks| > 0 && Sorted(ticks)
    requires k < |ticks|
    ensures Abs(Nearest(ticks, p) - p) <= Abs(ticks[k] - p)
    ensures Abs(Nearest(ticks, p) - p) == Abs(ticks[k] - p) ==> ticks[k] <= Nearest(ticks, p)
  {
    if ticks[0] < p < ticks[|ticks| - 1] {
      FirstAtLeastBrackets(ticks, p);
      var ix := FirstAtLeast(ticks, p);
      if k < ix {
        assert ticks[k] <= ticks[ix - 1];
      } else {
        assert ticks[ix] <= ticks[k];
      }
    }
  }

  /** A value that is itself a tick is left as it is. */
  lemma NearestOfTick(ticks: seq<int>, k: nat)
    requires |ticks| > 0 && Sorted(ticks) && k < |ticks|
    ensures Nearest(ticks, ticks[k]) == ticks[k]
  {
    var p := ticks[k];
    NearestIsGreatestClosest(ticks, p, k);
    NearestIsTick(ticks, p);
  }

  /**
   * Overwrites every value with the tick it rounds to, in place; the length is unchanged.
   * The source reads `ticks[0]` for every value, so the ticks may be empty only when
   * there are no values.
   */
  method RoundToArray(values: array<int>, ticks: seq<int>)
    requires (|ticks| > 0 || values.Length == 0) && Sorted(ticks)
    modifies values
    ensures forall i :: 0 <= i < values.Length ==> values[i] == Nearest(ticks, old(values[i]))
  {
    var last := |ticks| - 1;
    for i := 0 to values.Length
      invariant forall j :: 0 <= j < i ==> values[j] == Nearest(ticks, old(values[j]))
      invariant forall j :: i <= j < values.Length ==> values[j] == old(values[j])
    {
      var p := values[i];
      if p <= ticks[0] {
        values[i] := ticks[0];
      } else if p >= ticks[last] {
        values[i] := ticks[last];
      } else {
        var ix := SearchSorted(ticks, p);
        FirstAtLeastIsSearchSorted(ticks, p, ix);
        if Abs(ticks[ix] - p) <= Abs(ticks[ix - 1] - p) {
          values[i] := ticks[ix];
        } else {
          values[i] := ticks[ix - 1];
        }
      }
    }
  }
}
