/**
 * One-pass extrema (`find_min_max`) and the per-trace mode of a volume (`mode`, `nb_mode`) from
 * seismiqb/src/utils.py. Samples are modelled as integers; a NaN sample is `None`.
 */
module Stats {
  import opened Wrappers

  /** Smallest and largest element in one pass; the source reads `array[0]` first, so it must exist. */
  method FindMinMax(a: array<int>) returns (minVal: int, maxVal: int)
    requires a.Length > 0
    ensures minVal in a[..] && maxVal in a[..]
    ensures forall i :: 0 <= i < a.Length ==> minVal <= a[i] <= maxVal
  {
    minVal, maxVal := a[0], a[0];
    for i := 1 to a.Length
      invariant minVal in a[..i] && maxVal in a[..i]
      invariant forall j :: 0 <= j < i ==> minVal <= a[j] <= maxVal
    {
      minVal := if a[i] < minVal then a[i] else minVal;
      maxVal := if a[i] > maxVal then a[i] else maxVal;
    }
    assert a[..a.Length] == a[..];
  }

  /** Number of occurrences of `v` in `s`. */
  function Occ(s: seq<int>, v: int): nat {
    multiset(s)[v]
  }

  /** The largest number of occurrences of any value in `s` (0 for the empty trace). */
  function MaxOcc(s: seq<int>): nat {
    if |s| == 0 then 0
    else
      var m := MaxOcc(s[..|s| - 1]);
      var c := Occ(s, s[|s| - 1]);
      if c > m then c else m
  }

  lemma OccSnoc(s: seq<int>, x: int, v: int)
    ensures Occ(s + [x], v) == Occ(s, v) + (if v == x then 1 else 0)
  {
  }

  lemma MaxOccSnoc(s: seq<int>, x: int)
    ensures MaxOcc(s + [x]) == if Occ(s + [x], x) > MaxOcc(s) then Occ(s + [x], x) else MaxOcc(s)
  {
    assert (s + [x])[..|s|] == s;
  }

  /** No value occurs more often than MaxOcc. */
  lemma {:induction false} MaxOccIsMax(s: seq<int>, v: int)
    ensures Occ(s, v) <= MaxOcc(s)
  {
    if |s| > 0 {
      var init, x := s[..|s| - 1], s[|s| - 1];
      assert s == init + [x];
      MaxOccIsMax(init, v);
      OccSnoc(init, x, v);
      MaxOccSnoc(init, x);
    }
  }

  /** Some value of a non-empty trace occurs exactly MaxOcc times. */
  lemma {:induction false} MaxOccAttained(s: seq<int>)
    requires |s| > 0
    ensures exists u :: u in s && Occ(s, u) == MaxOcc(s)
  {
    var init, x := s[..|s| - 1], s[|s| - 1];
    assert s == init + [x];
    MaxOccSnoc(init, x);
    if Occ(s, x) <= MaxOcc(init) && |init| > 0 {
      MaxOccAttained(init);
      var u :| u in init && Occ(init, u) == MaxOcc(init);
      OccSnoc(init, x, u);
      MaxOccIsMax(init, x);
      assert u in s && Occ(s, u) == MaxOcc(s);
    } else {
      assert x in s && Occ(s, x) == MaxOcc(s);
    }
  }

  /** A value never occurs more often in a prefix than in the whole trace. */
  lemma OccPrefix(s: seq<int>, n: nat, v: int)
    requires n <= |s|
    ensures Occ(s[..n], v) <= Occ(s, v)
  {
    assert s == s[..n] + s[n..];
    assert multiset(s) == multiset(s[..n]) + multiset(s[n..]);
  }

  /** A value at two positions occurs at least twice. */
  lemma RepeatCountsTwice(s: seq<int>, i: int, j: int)
    requires 0 <= i < j < |s| && s[i] == s[j]
    ensures MaxOcc(s) >= 2
  {
    assert s == s[..i] + [s[i]] + s[i + 1..j] + [s[j]] + s[j + 1..];
    assert multiset(s)[s[i]] >= 2;
    MaxOccIsMax(s, s[i]);
  }

  /** A value occurring at least twice sits at two distinct positions. */
  lemma TwiceHasRepeat(s: seq<int>, u: int)
    requires Occ(s, u) >= 2
    ensures exists i, j :: 0 <= i < j < |s| && s[i] == s[j]
  {
    var i :| 0 <= i < |s| && s[i] == u;
    var rest := s[..i] + s[i + 1..];
    assert u in multiset(rest) by {
      assert s == s[..i] + [u] + s[i + 1..];
      assert multiset(s) == multiset(s[..i]) + multiset{u} + multiset(s[i + 1..]);
    }
    var j :| 0 <= j < |rest| && rest[j] == u;
    if j < i {
      assert s[j] == s[i];
    } else {
      assert s[j + 1] == s[i];
    }
  }

  /** At most one occurrence of every value exactly when the values are pairwise distinct. */
  lemma MaxOccAtMostOne(s: seq<int>)
    ensures MaxOcc(s) <= 1 <==> forall i, j :: 0 <= i < j < |s| ==> s[i] != s[j]
  {
    if MaxOcc(s) <= 1 {
      forall i, j | 0 <= i < j < |s| ensures s[i] != s[j] {
        if s[i] == s[j] {
          RepeatCountsTwice(s, i, j);
        }
      }
    } else {
      MaxOccAttained(s);
      var u :| u in s && Occ(s, u) == MaxOcc(s);
      TwiceHasRepeat(s, u);
    }
  }

  /** How often the sample at index `i` has occurred up to and including `i`. */
  function Running(s: seq<int>, i: int): nat
    requires 0 <= i < |s|
  {
    Occ(s[..i + 1], s[i])
  }

  /**
   * Index `j` is the first position at which some value reaches its final, maximal count: the
   * value the source's counter loop settles on, since it only replaces the current answer on a
   * strictly larger count.
   */
  ghost predicate FirstToReach(s: seq<int>, j: int) {
    && 0 <= j < |s|
    && Running(s, j) == MaxOcc(s)
    && forall i :: 0 <= i < j ==> Running(s, i) < MaxOcc(s)
  }

  /** The first index at or after `from` where a value's running count reaches `m`. */
  function FirstReach(s: seq<int>, m: nat, from: nat): (j: nat)
    requires from <= |s|
    decreases |s| - from
    ensures from <= j <= |s|
  {
    if from == |s| then |s|
    else if Running(s, from) == m then from
    else FirstReach(s, m, from + 1)
  }

  /**
   * The per-trace mode: `None` when no value repeats (the source never assigns `element`),
   * otherwise the value whose running count first reaches the maximal count.
   */
  function ModeOf(s: seq<int>): Option<int> {
    if MaxOcc(s) <= 1 then None
    else
      var j := FirstReach(s, MaxOcc(s), 0);
      if j < |s| then Some(s[j]) else None
  }

  /** FirstReach stops at the first index from `from` on whose running count is `m`. */
  lemma {:induction false} FirstReachIsFirst(s: seq<int>, m: nat, from: nat, k: nat)
    requires from <= k < |s| && Running(s, k) == m
    ensures var j := FirstReach(s, m, from);
      j <= k && Running(s, j) == m
      && forall i :: from <= i < j ==> Running(s, i) != m
    decreases k - from
  {
    if Running(s, from) == m {
      assert FirstReach(s, m, from) == from;
    } else {
      FirstReachIsFirst(s, m, from + 1, k);
      assert FirstReach(s, m, from) == FirstReach(s, m, from + 1);
    }
  }

  /** Some index of a non-empty trace reaches the maximal count. */
  lemma {:induction false} ReachExists(s: seq<int>)
    requires |s| > 0
    ensures exists k :: 0 <= k < |s| && Running(s, k) == MaxOcc(s)
  {
    var init, x := s[..|s| - 1], s[|s| - 1];
    assert s == init + [x];
    MaxOccSnoc(init, x);
    assert s[..|s|] == s;
    if Occ(s, x) <= MaxOcc(init) && |init| > 0 {
      ReachExists(init);
      var k :| 0 <= k < |init| && Running(init, k) == MaxOcc(init);
      assert s[..k + 1] == init[..k + 1];
      assert Running(s, k) == MaxOcc(s);
    } else {
      assert Running(s, |s| - 1) == MaxOcc(s);
    }
  }

  /** A running count never exceeds the maximal count. */
  lemma RunningOccBound(s: seq<int>, i: int)
    requires 0 <= i < |s|
    ensures Running(s, i) <= MaxOcc(s)
  {
    OccPrefix(s, i + 1, s[i]);
    MaxOccIsMax(s, s[i]);
  }

  /** The index ModeOf picks first reaches the maximal count. */
  lemma ModeIndexIsFirstToReach(s: seq<int>)
    requires |s| > 0
    ensures FirstReach(s, MaxOcc(s), 0) < |s|
    ensures FirstToReach(s, FirstReach(s, MaxOcc(s), 0))
  {
    ReachExists(s);
    var k :| 0 <= k < |s| && Running(s, k) == MaxOcc(s);
    FirstReachIsFirst(s, MaxOcc(s), 0, k);
    var j := FirstReach(s, MaxOcc(s), 0);
    forall i | 0 <= i < j ensures Running(s, i) < MaxOcc(s) {
      RunningOccBound(s, i);
    }
  }

  /** An index that first reaches the maximal count is the one FirstReach finds. */
  lemma FirstToReachUnique(s: seq<int>, j: int)
    requires FirstToReach(s, j)
    ensures FirstReach(s, MaxOcc(s), 0) == j
  {
    FirstReachIsFirst(s, MaxOcc(s), 0, j);
  }

  /**
   * The mode of a trace with a repeated value is a most frequent value, and the one whose count
   * reaches that maximum first; it is `None` exactly when all values are distinct.
   */
  lemma ModeOfIsMostFrequent(s: seq<int>, u: int)
    ensures ModeOf(s) == None <==> forall a, b :: 0 <= a < b < |s| ==> s[a] != s[b]
    ensures ModeOf(s).Some? ==> Occ(s, u) <= Occ(s, ModeOf(s).value)
    ensures ModeOf(s).Some? ==> exists j :: FirstToReach(s, j) && ModeOf(s).value == s[j]
  {
    MaxOccAtMostOne(s);
    MaxOccIsMax(s, u);
    if |s| > 0 {
      ModeIndexIsFirstToReach(s);
      var j := FirstReach(s, MaxOcc(s), 0);
      OccPrefix(s, j + 1, s[j]);
      MaxOccIsMax(s, s[j]);
    }
  }

  /** The counter of the loop: one less than the number of occurrences of each value seen so far. */
  ghost predicate CounterState(p: seq<int>, counter: map<int, nat>) {
    && (forall v :: v in counter <==> v in p)
    && (forall v :: v in counter ==> counter[v] + 1 == Occ(p, v))
  }

  /**
   * The current answer of the loop after the prefix `p`, and the index `jw` it was taken from.
   * `carried` is the answer the loop started with: the source's `element` is not reset per trace.
   */
  ghost predicate PickState(p: seq<int>, carried: Option<int>, frequency: nat, element: Option<int>, jw: int) {
    && frequency == (if |p| == 0 then 0 else MaxOcc(p) - 1)
    && (MaxOcc(p) <= 1 ==> element == carried)
    && (MaxOcc(p) > 1 ==> element.Some? && FirstToReach(p, jw) && element.value == p[jw])
  }

  lemma CounterStep(p: seq<int>, x: int, counter: map<int, nat>)
    requires CounterState(p, counter)
    ensures var c := if x in counter then counter[x] + 1 else 0;
      CounterState(p + [x], counter[x := c]) && c + 1 == Occ(p + [x], x)
  {
    var c := if x in counter then counter[x] + 1 else 0;
    forall v | v in counter[x := c] ensures counter[x := c][v] + 1 == Occ(p + [x], v) {
      OccSnoc(p, x, v);
    }
  }

  lemma PickStep(p: seq<int>, carried: Option<int>, x: int, c: nat, frequency: nat, element: Option<int>, jw: int)
    requires PickState(p, carried, frequency, element, jw)
    requires c + 1 == Occ(p + [x], x)
    ensures c > frequency ==> PickState(p + [x], carried, c, Some(x), |p|)
    ensures c <= frequency ==> PickState(p + [x], carried, frequency, element, jw)
  {
    var q := p + [x];
    MaxOccSnoc(p, x);
    if c > frequency {
      assert q[..|p| + 1] == q;
      forall i | 0 <= i < |p| ensures Running(q, i) < MaxOcc(q) {
        assert q[..i + 1] == p[..i + 1];
        RunningOccBound(p, i);
      }
    } else if MaxOcc(p) > 1 {
      forall i | 0 <= i <= jw ensures Running(q, i) == Running(p, i) {
        assert q[..i + 1] == p[..i + 1];
      }
    }
  }

  /** The answer after one trace: its mode if some value repeats, otherwise the answer carried in. */
  function CarryMode(carried: Option<int>, s: seq<int>): Option<int> {
    var m := ModeOf(s);
    if m.Some? then m else carried
  }

  /** Once the whole trace is read, the loop's answer is CarryMode. */
  lemma PickStateIsMode(s: seq<int>, carried: Option<int>, frequency: nat, element: Option<int>, jw: int)
    requires PickState(s, carried, frequency, element, jw)
    ensures element == CarryMode(carried, s)
  {
    if MaxOcc(s) > 1 {
      FirstToReachUnique(s, jw);
    }
  }

  /** The loop state after the first `t` samples of `trace`. */
  ghost predicate LoopState(trace: seq<int>, t: nat, carried: Option<int>, counter: map<int, nat>, frequency: nat,
                            element: Option<int>, jw: int)
  {
    t <= |trace| && CounterState(trace[..t], counter) && PickState(trace[..t], carried, frequency, element, jw)
  }

  lemma LoopStep(trace: seq<int>, t: nat, carried: Option<int>, counter: map<int, nat>, frequency: nat,
                 element: Option<int>, jw: int)
    requires t < |trace| && LoopState(trace, t, carried, counter, frequency, element, jw)
    ensures var x := trace[t];
      var c := if x in counter then counter[x] + 1 else 0;
      LoopState(trace, t + 1, carried, counter[x := c], if c > frequency then c else frequency,
                if c > frequency then Some(x) else element, if c > frequency then t else jw)
  {
    var x := trace[t];
    var c := if x in counter then counter[x] + 1 else 0;
    assert trace[..t + 1] == trace[..t] + [x];
    CounterStep(trace[..t], x, counter);
    PickStep(trace[..t], carried, x, c, frequency, element, jw);
  }

  /** The counter loop of `nb_mode` for a single trace, starting from the answer of earlier traces. */
  method TraceMode(trace: seq<int>, carried: Option<int>) returns (element: Option<int>)
    ensures element == CarryMode(carried, trace)
  {
    var counter: map<int, nat> := map[];
    var frequency: nat := 0;
    element := carried;
    ghost var jw: int := 0;
    for t := 0 to |trace|
      invariant LoopState(trace, t, carried, counter, frequency, element, jw)
    {
      LoopStep(trace, t, carried, counter, frequency, element, jw);
      var x := trace[t];
      var c := if x in counter then counter[x] + 1 else 0;
      counter := counter[x := c];
      if c > frequency {
        element := Some(x);
        frequency := c;
        jw := t;
      }
    }
    assert trace[..|trace|] == trace;
    PickStateIsMode(trace, carried, frequency, element, jw);
  }

  /**
   * A trace without a repeated value keeps the answer of an earlier trace: after a trace whose
   * mode is 5, the trace [1, 2] also gets 5, a value it does not contain.
   */
  lemma CarryModeKeepsEarlierAnswer()
    ensures CarryMode(Some(5), [1, 2]) == Some(5) && 5 !in [1, 2]
  {
    MaxOccAtMostOne([1, 2]);
  }

  /**
   * The per-trace answer the loop gives when each count starts at one: the value whose count first
   * reaches the maximum, which for a trace without repeats is its first sample. It depends on the
   * trace alone.
   */
  function TraceOwnMode(s: seq<int>): (m: Option<int>)
    ensures m.Some? <==> |s| > 0
    ensures m.Some? ==> m.value in s && forall u :: Occ(s, u) <= Occ(s, m.value)
    ensures MaxOcc(s) > 1 ==> m == ModeOf(s)
  {
    if |s| == 0 then None
    else
      ModeIndexIsFirstToReach(s);
      var j := FirstReach(s, MaxOcc(s), 0);
      OwnModeIsMostFrequent(s, j);
      Some(s[j])
  }

  lemma OwnModeIsMostFrequent(s: seq<int>, j: int)
    requires FirstToReach(s, j)
    ensures forall u :: Occ(s, u) <= Occ(s, s[j])
  {
    OccPrefix(s, j + 1, s[j]);
    MaxOccIsMax(s, s[j]);
    forall u ensures Occ(s, u) <= Occ(s, s[j]) {
      MaxOccIsMax(s, u);
    }
  }

  /** Counting from one, a trace without repeats gets its first sample: [1, 2] gets 1. */
  lemma OwnModeOfDistinct()
    ensures TraceOwnMode([1, 2]) == Some(1)
  {
    var s := [1, 2];
    MaxOccAtMostOne(s);
    assert MaxOcc(s) >= 1 by { MaxOccIsMax(s, 1); }
    assert s[..1] == [1];
    assert FirstReach(s, MaxOcc(s), 0) == 0;
  }

  /** A cell of the output: NaN where masked, a mode, or no value when `element` was never assigned. */
  datatype ModeCell = NaN | Mode(value: int) | Unassigned

  function AsCell(e: Option<int>): ModeCell {
    if e.Some? then Mode(e.value) else Unassigned
  }

  /** The samples of trace (il, xl); `None` is a NaN sample. */
  function Samples(volume: array3<Option<int>>, il: int, xl: int): (t: seq<Option<int>>)
    requires 0 <= il < volume.Length0 && 0 <= xl < volume.Length1
    reads volume
    ensures |t| == volume.Length2
  {
    seq(volume.Length2, k requires 0 <= k < volume.Length2 reads volume => volume[il, xl, k])
  }

  predicate HasNaN(t: seq<Option<int>>) {
    exists k :: 0 <= k < |t| && t[k].None?
  }

  /** The sample values of a trace without NaN (a NaN sample, never read, becomes 0). */
  function Values(t: seq<Option<int>>): (r: seq<int>)
    ensures |r| == |t| && forall k :: 0 <= k < |t| && t[k].Some? ==> t[k] == Some(r[k])
  {
    seq(|t|, k requires 0 <= k < |t| => if t[k].Some? then t[k].value else 0)
  }

  /** Every trace the mask leaves in has no NaN sample, as when the mask is the traces' maximum. */
  predicate MaskCoversNaN(volume: array3<Option<int>>, mask: array2<bool>)
    reads volume, mask
  {
    && mask.Length0 >= volume.Length0 && mask.Length1 >= volume.Length1
    && forall il, xl :: 0 <= il < volume.Length0 && 0 <= xl < volume.Length1 && !mask[il, xl] ==>
         !HasNaN(Samples(volume, il, xl))
  }

  /**
   * The carried answer before cell (il, xl) is processed, cells visited row by row as the two
   * loops of `nb_mode` visit them.
   */
  function Before(volume: array3<Option<int>>, mask: array2<bool>, il: nat, xl: nat): Option<int>
    requires mask.Length0 >= volume.Length0 && mask.Length1 >= volume.Length1
    requires il < volume.Length0 && xl <= volume.Length1
    reads volume, mask
    decreases il, xl
  {
    if xl == 0 then
      (if il == 0 then None else Before(volume, mask, il - 1, volume.Length1))
    else
      var e := Before(volume, mask, il, xl - 1);
      if mask[il, xl - 1] then e else CarryMode(e, Values(Samples(volume, il, xl - 1)))
  }

  lemma BeforeStep(volume: array3<Option<int>>, mask: array2<bool>, il: nat, xl: nat)
    requires mask.Length0 >= volume.Length0 && mask.Length1 >= volume.Length1
    requires il < volume.Length0 && xl < volume.Length1
    ensures var e := Before(volume, mask, il, xl);
      Before(volume, mask, il, xl + 1) == if mask[il, xl] then e else CarryMode(e, Values(Samples(volume, il, xl)))
  {
  }

  /** The value `nb_mode` writes for cell (il, xl). */
  function CellValue(volume: array3<Option<int>>, mask: array2<bool>, il: nat, xl: nat): ModeCell
    requires mask.Length0 >= volume.Length0 && mask.Length1 >= volume.Length1
    requires il < volume.Length0 && xl < volume.Length1
    reads volume, mask
  {
    if mask[il, xl] then NaN else AsCell(Before(volume, mask, il, xl + 1))
  }

  /** A cell whose trace repeats a value holds a most frequent value of that trace. */
  lemma CellValueIsTraceMode(volume: array3<Option<int>>, mask: array2<bool>, il: nat, xl: nat, u: int)
    requires MaskCoversNaN(volume, mask)
    requires il < volume.Length0 && xl < volume.Length1 && !mask[il, xl]
    requires MaxOcc(Values(Samples(volume, il, xl))) > 1
    ensures CellValue(volume, mask, il, xl).Mode?
    ensures var t := Values(Samples(volume, il, xl));
      u in t ==> Occ(t, u) <= Occ(t, CellValue(volume, mask, il, xl).value)
    ensures exists j :: (FirstToReach(Values(Samples(volume, il, xl)), j)
      && CellValue(volume, mask, il, xl).value == Values(Samples(volume, il, xl))[j])
  {
    var t := Values(Samples(volume, il, xl));
    ModeOfIsMostFrequent(t, u);
    MaxOccAtMostOne(t);
  }

  /** The body of the cell loops of `nb_mode`: the value of cell (il, xl) and the new carried answer. */
  method NbModeCell(volume: array3<Option<int>>, mask: array2<bool>, il: nat, xl: nat, carried: Option<int>)
    returns (element: Option<int>, cell: ModeCell)
    requires mask.Length0 >= volume.Length0 && mask.Length1 >= volume.Length1
    requires il < volume.Length0 && xl < volume.Length1
    requires carried == Before(volume, mask, il, xl)
    ensures element == Before(volume, mask, il, xl + 1)
    ensures cell == CellValue(volume, mask, il, xl)
  {
    BeforeStep(volume, mask, il, xl);
    element, cell := carried, NaN;
    if !mask[il, xl] {
      var current := Values(Samples(volume, il, xl));
      element := TraceMode(current, element);
      cell := AsCell(element);
    }
  }

  /** One row of the cell loops of `nb_mode`: writes row `il` and returns the carried answer. */
  method NbModeRow(volume: array3<Option<int>>, mask: array2<bool>, temp: array2<ModeCell>, il: nat, carried: Option<int>)
    returns (element: Option<int>)
    requires mask.Length0 >= volume.Length0 && mask.Length1 >= volume.Length1
    requires il < volume.Length0 && temp.Length0 == volume.Length0 && temp.Length1 == volume.Length1
    requires carried == Before(volume, mask, il, 0)
    modifies temp
    ensures element == Before(volume, mask, il, volume.Length1)
    ensures forall j :: 0 <= j < temp.Length1 ==> temp[il, j] == CellValue(volume, mask, il, j)
    ensures forall i, j :: 0 <= i < temp.Length0 && i != il && 0 <= j < temp.Length1 ==> temp[i, j] == old(temp[i, j])
  {
    element := carried;
    for xl := 0 to volume.Length1
      invariant element == Before(volume, mask, il, xl)
      invariant forall j :: 0 <= j < xl ==> temp[il, j] == CellValue(volume, mask, il, j)
      invariant forall i, j :: 0 <= i < temp.Length0 && i != il && 0 <= j < temp.Length1 ==> temp[i, j] == old(temp[i, j])
    {
      var cell;
      element, cell := NbModeCell(volume, mask, il, xl, element);
      temp[il, xl] := cell;
    }
  }

  /** `nb_mode`: the mode of every trace the mask leaves in, NaN elsewhere. */
  method NbMode(volume: array3<Option<int>>, mask: array2<bool>) returns (temp: array2<ModeCell>)
    requires MaskCoversNaN(volume, mask)
    ensures fresh(temp) && temp.Length0 == volume.Length0 && temp.Length1 == volume.Length1
    ensures forall il, xl :: 0 <= il < temp.Length0 && 0 <= xl < temp.Length1 ==>
      temp[il, xl] == CellValue(volume, mask, il, xl)
  {
    temp := new ModeCell[volume.Length0, volume.Length1]((_, _) => NaN);
    var element: Option<int> := None;
    for il := 0 to volume.Length0
      invariant il < volume.Length0 ==> element == Before(volume, mask, il, 0)
      invariant forall i, j :: 0 <= i < il && 0 <= j < temp.Length1 ==> temp[i, j] == CellValue(volume, mask, i, j)
    {
      element := NbModeRow(volume, mask, temp, il, element);
    }
  }

  /**
   * `mode`: the mask is the traces' maximum, NaN exactly where a trace holds a NaN sample (an
   * empty last axis makes the maximum fail, hence the requires).
   */
  method ModeOfVolume(volume: array3<Option<int>>) returns (temp: array2<ModeCell>, ghost mask: array2<bool>)
    requires volume.Length2 > 0
    ensures mask.Length0 == volume.Length0 && mask.Length1 == volume.Length1
    ensures forall il, xl :: 0 <= il < volume.Length0 && 0 <= xl < volume.Length1 ==>
      mask[il, xl] == HasNaN(Samples(volume, il, xl))
    ensures MaskCoversNaN(volume, mask)
    ensures fresh(temp) && temp.Length0 == volume.Length0 && temp.Length1 == volume.Length1
    ensures forall il, xl :: 0 <= il < temp.Length0 && 0 <= xl < temp.Length1 ==>
      temp[il, xl] == CellValue(volume, mask, il, xl)
  {
    var nanMask := new bool[volume.Length0, volume.Length1]((i, j) => false);
    for il := 0 to volume.Length0
      invariant forall i, j :: 0 <= i < il && 0 <= j < volume.Length1 ==> nanMask[i, j] == HasNaN(Samples(volume, i, j))
    {
      for xl := 0 to volume.Length1
        invariant forall i, j :: 0 <= i < il && 0 <= j < volume.Length1 ==> nanMask[i, j] == HasNaN(Samples(volume, i, j))
        invariant forall j :: 0 <= j < xl ==> nanMask[il, j] == HasNaN(Samples(volume, il, j))
      {
        nanMask[il, xl] := HasNaN(Samples(volume, il, xl));
      }
    }
    mask := nanMask;
    temp := NbMode(volume, nanMask);
  }
}
