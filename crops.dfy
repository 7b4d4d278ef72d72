/**
 * `gen_crop_coordinates` in seismiqb/src/utils.py: around a point of a horizon, try two iline-shifted
 * and two xline-shifted crop footprints, keep those that stay clear of the cube border, cover few zero
 * traces and many points where the horizon is unknown, and return the best `num_points` of them by
 * score, or nothing when no footprint passes.
 */
module Crops {
  import opened Wrappers

  /** One candidate crop: its corner, its depth anchor, its shape, its axis order and its score. */
  datatype Crop = Crop(iline: int, xline: int, height: int, shape: (int, int, int), order: (int, int, int), score: int)

  // ---------------------------------------------------------------------------------------------
  // Python slicing

  /** Where a slice bound `i` lands on an axis of length n: negative bounds count from the end, and both ends clamp. */
  function SliceBound(i: int, n: nat): (b: nat)
    ensures b <= n
    ensures 0 <= i <= n ==> b == i
    ensures i > n ==> b == n
    ensures i < 0 ==> b == if i + n < 0 then 0 else i + n
  {
    if i < 0 then (if i + n < 0 then 0 else i + n) else if i > n then n else i
  }

  /** `s[:k]`: the first k elements, or all but the last -k when k is negative. */
  function TakePrefix<T>(s: seq<T>, k: int): (p: seq<T>)
    ensures |p| <= |s| && p == s[..|p|]
    ensures k >= 0 ==> |p| == if k < |s| then k else |s|
    ensures k < 0 ==> |p| == if k + |s| < 0 then 0 else k + |s|
  {
    s[..SliceBound(k, |s|)]
  }

  // ---------------------------------------------------------------------------------------------
  // Counting over a footprint

  /** Number of true cells of m in rows [r0, r1) and columns [c0, c1). */
  function CountTrue(m: array2<bool>, r0: nat, r1: nat, c0: nat, c1: nat): nat
    requires r1 <= m.Length0 && c1 <= m.Length1
    reads m
    decreases r1
  {
    if r1 <= r0 then 0 else CountTrue(m, r0, r1 - 1, c0, c1) + CountTrueRow(m, r1 - 1, c0, c1)
  }

  function CountTrueRow(m: array2<bool>, r: nat, c0: nat, c1: nat): nat
    requires r < m.Length0 && c1 <= m.Length1
    reads m
    decreases c1
  {
    if c1 <= c0 then 0 else CountTrueRow(m, r, c0, c1 - 1) + (if m[r, c1 - 1] then 1 else 0)
  }

  /** Number of cells of m equal to v in rows [r0, r1) and columns [c0, c1). */
  function CountEq(m: array2<int>, v: int, r0: nat, r1: nat, c0: nat, c1: nat): nat
    requires r1 <= m.Length0 && c1 <= m.Length1
    reads m
    decreases r1
  {
    if r1 <= r0 then 0 else CountEq(m, v, r0, r1 - 1, c0, c1) + CountEqRow(m, v, r1 - 1, c0, c1)
  }

  function CountEqRow(m: array2<int>, v: int, r: nat, c0: nat, c1: nat): nat
    requires r < m.Length0 && c1 <= m.Length1
    reads m
    decreases c1
  {
    if c1 <= c0 then 0 else CountEqRow(m, v, r, c0, c1 - 1) + (if m[r, c1 - 1] == v then 1 else 0)
  }

  /** `np.sum(mask[r0:r1, c0:c1])` with numpy's slice clamping. */
  function SliceCountTrue(m: array2<bool>, r0: int, r1: int, c0: int, c1: int): nat
    reads m
  {
    CountTrue(m, SliceBound(r0, m.Length0), SliceBound(r1, m.Length0), SliceBound(c0, m.Length1), SliceBound(c1, m.Length1))
  }

  /** `np.sum(matrix[r0:r1, c0:c1] == v)` with numpy's slice clamping. */
  function SliceCountEq(m: array2<int>, v: int, r0: int, r1: int, c0: int, c1: int): nat
    reads m
  {
    CountEq(m, v, SliceBound(r0, m.Length0), SliceBound(r1, m.Length0), SliceBound(c0, m.Length1), SliceBound(c1, m.Length1))
  }

  // ---------------------------------------------------------------------------------------------
  // The search, as a specification

  /** The arguments of the search; `point` must index the horizon matrix. */
  datatype Params = Params(
    p0: int, p1: int, stride: int, shape: (int, int, int), depth: int, fillValue: int,
    zerosThreshold: int, emptyThreshold: int, safeStripe: int, numPoints: int)

  predicate ValidParams(hm: array2<int>, q: Params) {
    0 <= q.p0 < hm.Length0 && 0 <= q.p1 < hm.Length1
  }

  /** The depth anchor: half a crop above the horizon, but never deeper than the cube allows. */
  function Anchor(hm: array2<int>, q: Params): (h: int)
    requires ValidParams(hm, q)
    reads hm
    ensures h <= hm[q.p0, q.p1] - q.shape.2 / 2 && h <= q.depth - q.shape.2 - 1
    ensures h == hm[q.p0, q.p1] - q.shape.2 / 2 || h == q.depth - q.shape.2 - 1
  {
    var a, b := hm[q.p0, q.p1] - q.shape.2 / 2, q.depth - q.shape.2 - 1;
    if a < b then a else b
  }

  function Min(a: int, b: int): int { if a < b then a else b }
  function Max(a: int, b: int): int { if a < b then b else a }

  /** The two iline offsets tried: one stride before the point, and one stride past its far side. */
  function IlinePositions(hm: array2<int>, q: Params): seq<int>
    requires ValidParams(hm, q)
  {
    [Max(0, q.p0 - q.stride), Min(q.p0 - q.shape.1 + q.stride, hm.Length0 - q.shape.1)]
  }

  function XlinePositions(hm: array2<int>, q: Params): seq<int>
    requires ValidParams(hm, q)
  {
    [Max(0, q.p1 - q.stride), Min(q.p1 - q.shape.1 + q.stride, hm.Length1 - q.shape.1)]
  }

  /** The footprint starting at `start` along an axis of length n stays `safeStripe` away from both ends. */
  predicate Safe(start: int, width: int, n: int, safeStripe: int) {
    start > safeStripe && start + width < n - safeStripe
  }

  /** The crop shifted along ilines to `il`, if it passes the three filters. */
  function IlineCrop(hm: array2<int>, zt: array2<bool>, q: Params, il: int): (c: Option<Crop>)
    requires ValidParams(hm, q)
    reads hm, zt
  {
    var s0, s1 := q.shape.0, q.shape.1;
    if !Safe(il, s1, hm.Length0, q.safeStripe) then None
    else if SliceCountTrue(zt, il, il + s1, q.p1, q.p1 + s0) > q.zerosThreshold then None
    else
      var empty := SliceCountEq(hm, q.fillValue, il, il + s1, q.p1, q.p1 + s0);
      if empty <= q.emptyThreshold then None
      else Some(Crop(il, q.p1, Anchor(hm, q), (s1, s0, q.shape.2), (0, 2, 1), s1 - empty))
  }

  /** The crop shifted along xlines to `xl`, if it passes the three filters. */
  function XlineCrop(hm: array2<int>, zt: array2<bool>, q: Params, xl: int): (c: Option<Crop>)
    requires ValidParams(hm, q)
    reads hm, zt
  {
    var s0, s1 := q.shape.0, q.shape.1;
    if !Safe(xl, s1, hm.Length1, q.safeStripe) then None
    else if SliceCountTrue(zt, q.p0, q.p0 + s0, xl, xl + s1) > q.zerosThreshold then None
    else
      var empty := SliceCountEq(hm, q.fillValue, q.p0, q.p0 + s0, xl, xl + s1);
      if empty <= q.emptyThreshold then None
      else Some(Crop(q.p0, xl, Anchor(hm, q), q.shape, (2, 0, 1), s1 - empty))
  }

  /** The iline loop's list after the offsets `ps`: each footprint appended to `acc` if it passes. */
  function IlineCollect(hm: array2<int>, zt: array2<bool>, q: Params, acc: seq<Crop>, ps: seq<int>): (cs: seq<Crop>)
    requires ValidParams(hm, q)
    reads hm, zt
    ensures |cs| <= |acc| + |ps|
  {
    if |ps| == 0 then acc
    else
      var rest := IlineCollect(hm, zt, q, acc, ps[..|ps| - 1]);
      var found := IlineCrop(hm, zt, q, ps[|ps| - 1]);
      if found.Some? then rest + [found.value] else rest
  }

  /** The xline loop's list after the offsets `ps`: each footprint appended to `acc` if it passes. */
  function XlineCollect(hm: array2<int>, zt: array2<bool>, q: Params, acc: seq<Crop>, ps: seq<int>): (cs: seq<Crop>)
    requires ValidParams(hm, q)
    reads hm, zt
    ensures |cs| <= |acc| + |ps|
  {
    if |ps| == 0 then acc
    else
      var rest := XlineCollect(hm, zt, q, acc, ps[..|ps| - 1]);
      var found := XlineCrop(hm, zt, q, ps[|ps| - 1]);
      if found.Some? then rest + [found.value] else rest
  }

  /** The candidates in the order they are found: both iline offsets, then both xline offsets. */
  function Candidates(hm: array2<int>, zt: array2<bool>, q: Params): seq<Crop>
    requires ValidParams(hm, q)
    reads hm, zt
  {
    XlineCollect(hm, zt, q, IlineCollect(hm, zt, q, [], IlinePositions(hm, q)), XlinePositions(hm, q))
  }

  lemma {:induction false} IlineCollectMembers(hm: array2<int>, zt: array2<bool>, q: Params, acc: seq<Crop>, ps: seq<int>, c: Crop)
    requires ValidParams(hm, q)
    ensures c in IlineCollect(hm, zt, q, acc, ps) <==> c in acc || exists p :: p in ps && IlineCrop(hm, zt, q, p) == Some(c)
  {
    if |ps| > 0 {
      var init := ps[..|ps| - 1];
      IlineCollectMembers(hm, zt, q, acc, init, c);
      assert ps == init + [ps[|ps| - 1]];
    }
  }

  lemma {:induction false} XlineCollectMembers(hm: array2<int>, zt: array2<bool>, q: Params, acc: seq<Crop>, ps: seq<int>, c: Crop)
    requires ValidParams(hm, q)
    ensures c in XlineCollect(hm, zt, q, acc, ps) <==> c in acc || exists p :: p in ps && XlineCrop(hm, zt, q, p) == Some(c)
  {
    if |ps| > 0 {
      var init := ps[..|ps| - 1];
      XlineCollectMembers(hm, zt, q, acc, init, c);
      assert ps == init + [ps[|ps| - 1]];
    }
  }

  /** What every kept iline-shifted candidate satisfies. */
  predicate PassesAsIline(hm: array2<int>, zt: array2<bool>, q: Params, c: Crop)
    requires ValidParams(hm, q)
    reads hm, zt
  {
    var s0, s1 := q.shape.0, q.shape.1;
    && c.iline in IlinePositions(hm, q) && c.xline == q.p1
    && Safe(c.iline, s1, hm.Length0, q.safeStripe)
    && SliceCountTrue(zt, c.iline, c.iline + s1, q.p1, q.p1 + s0) <= q.zerosThreshold
    && SliceCountEq(hm, q.fillValue, c.iline, c.iline + s1, q.p1, q.p1 + s0) > q.emptyThreshold
    && c.score == s1 - SliceCountEq(hm, q.fillValue, c.iline, c.iline + s1, q.p1, q.p1 + s0)
    && c.height == Anchor(hm, q) && c.shape == (s1, s0, q.shape.2) && c.order == (0, 2, 1)
  }

  /** What every kept xline-shifted candidate satisfies. */
  predicate PassesAsXline(hm: array2<int>, zt: array2<bool>, q: Params, c: Crop)
    requires ValidParams(hm, q)
    reads hm, zt
  {
    var s0, s1 := q.shape.0, q.shape.1;
    && c.xline in XlinePositions(hm, q) && c.iline == q.p0
    && Safe(c.xline, s1, hm.Length1, q.safeStripe)
    && SliceCountTrue(zt, q.p0, q.p0 + s0, c.xline, c.xline + s1) <= q.zerosThreshold
    && SliceCountEq(hm, q.fillValue, q.p0, q.p0 + s0, c.xline, c.xline + s1) > q.emptyThreshold
    && c.score == s1 - SliceCountEq(hm, q.fillValue, q.p0, q.p0 + s0, c.xline, c.xline + s1)
    && c.height == Anchor(hm, q) && c.shape == q.shape && c.order == (2, 0, 1)
  }

  lemma IlineCropPasses(hm: array2<int>, zt: array2<bool>, q: Params, il: int)
    requires ValidParams(hm, q) && il in IlinePositions(hm, q)
    ensures IlineCrop(hm, zt, q, il).Some? ==> PassesAsIline(hm, zt, q, IlineCrop(hm, zt, q, il).value)
  {
  }

  lemma XlineCropPasses(hm: array2<int>, zt: array2<bool>, q: Params, xl: int)
    requires ValidParams(hm, q) && xl in XlinePositions(hm, q)
    ensures XlineCrop(hm, zt, q, xl).Some? ==> PassesAsXline(hm, zt, q, XlineCrop(hm, zt, q, xl).value)
  {
  }

  /** Every candidate passed the stripe, zero-trace and unknown-horizon filters, and there are at most four. */
  lemma CandidatesPassFilters(hm: array2<int>, zt: array2<bool>, q: Params)
    requires ValidParams(hm, q)
    ensures |Candidates(hm, zt, q)| <= 4
    ensures forall c :: c in Candidates(hm, zt, q) ==> PassesAsIline(hm, zt, q, c) || PassesAsXline(hm, zt, q, c)
  {
    var il, xl := IlinePositions(hm, q), XlinePositions(hm, q);
    var fromIlines := IlineCollect(hm, zt, q, [], il);
    forall c | c in Candidates(hm, zt, q) ensures PassesAsIline(hm, zt, q, c) || PassesAsXline(hm, zt, q, c) {
      XlineCollectMembers(hm, zt, q, fromIlines, xl, c);
      IlineCollectMembers(hm, zt, q, [], il, c);
      if c in fromIlines {
        var p :| p in il && IlineCrop(hm, zt, q, p) == Some(c);
        IlineCropPasses(hm, zt, q, p);
      } else {
        var p :| p in xl && XlineCrop(hm, zt, q, p) == Some(c);
        XlineCropPasses(hm, zt, q, p);
      }
    }
  }

  /** A crop that passes as iline-shifted is what the search finds at its offset. */
  lemma PassingIlineIsFound(hm: array2<int>, zt: array2<bool>, q: Params, c: Crop)
    requires ValidParams(hm, q) && PassesAsIline(hm, zt, q, c)
    ensures IlineCrop(hm, zt, q, c.iline) == Some(c)
  {
  }

  lemma PassingXlineIsFound(hm: array2<int>, zt: array2<bool>, q: Params, c: Crop)
    requires ValidParams(hm, q) && PassesAsXline(hm, zt, q, c)
    ensures XlineCrop(hm, zt, q, c.xline) == Some(c)
  {
  }

  /** Conversely, every offset that passes the filters yields a candidate. */
  lemma PassingOffsetsAreKept(hm: array2<int>, zt: array2<bool>, q: Params, c: Crop)
    requires ValidParams(hm, q)
    requires PassesAsIline(hm, zt, q, c) || PassesAsXline(hm, zt, q, c)
    ensures c in Candidates(hm, zt, q)
  {
    var il, xl := IlinePositions(hm, q), XlinePositions(hm, q);
    var fromIlines := IlineCollect(hm, zt, q, [], il);
    XlineCollectMembers(hm, zt, q, fromIlines, xl, c);
    IlineCollectMembers(hm, zt, q, [], il, c);
    if PassesAsIline(hm, zt, q, c) {
      PassingIlineIsFound(hm, zt, q, c);
    } else {
      PassingXlineIsFound(hm, zt, q, c);
    }
  }

  // ---------------------------------------------------------------------------------------------
  // Ordering by score

  predicate SortedByScore(s: seq<Crop>) {
    forall a, b :: 0 <= a < b < |s| ==> s[a].score <= s[b].score
  }

  /** Insert c after every element whose score is not larger, keeping equal scores in arrival order. */
  function InsertByScore(sorted: seq<Crop>, c: Crop): (r: seq<Crop>)
    requires SortedByScore(sorted)
    ensures SortedByScore(r) && multiset(r) == multiset(sorted) + multiset{c}
    ensures |r| > 0 && (r[0] == c || (|sorted| > 0 && r[0] == sorted[0]))
  {
    if |sorted| == 0 then [c]
    else if c.score < sorted[0].score then [c] + sorted
    else
      var rest := InsertByScore(sorted[1..], c);
      assert sorted == [sorted[0]] + sorted[1..];
      assert sorted[0].score <= rest[0].score;
      var r := [sorted[0]] + rest;
      assert SortedByScore(r) by {
        forall a, b | 0 <= a < b < |r| ensures r[a].score <= r[b].score {
          assert r[b] == rest[b - 1];
          if a > 0 {
            assert r[a] == rest[a - 1];
          }
        }
      }
      assert multiset(r) == multiset{sorted[0]} + multiset(rest);
      r
  }

  /** `np.argsort` of the scores applied to the candidates: ascending scores, equal scores in input order. */
  function SortByScore(s: seq<Crop>): (r: seq<Crop>)
    ensures SortedByScore(r) && multiset(r) == multiset(s)
  {
    if |s| == 0 then []
    else
      var init := s[..|s| - 1];
      assert s == init + [s[|s| - 1]];
      InsertByScore(SortByScore(init), s[|s| - 1])
  }

  // ---------------------------------------------------------------------------------------------
  // The search, as the source performs it

  /** The body of the iline loop: the footprint at `il`, if it passes the three filters. */
  method TryIline(hm: array2<int>, zt: array2<bool>, q: Params, il: int, height: int) returns (found: Option<Crop>)
    requires ValidParams(hm, q) && height == Anchor(hm, q)
    ensures found == IlineCrop(hm, zt, q, il)
  {
    var s0, s1, s2 := q.shape.0, q.shape.1, q.shape.2;
    found := None;
    if il > q.safeStripe && il + s1 < hm.Length0 - q.safeStripe {
      var numMissing := SliceCountTrue(zt, il, il + s1, q.p1, q.p1 + s0);
      if numMissing <= q.zerosThreshold {
        var numEmpty := SliceCountEq(hm, q.fillValue, il, il + s1, q.p1, q.p1 + s0);
        if numEmpty > q.emptyThreshold {
          found := Some(Crop(il, q.p1, height, (s1, s0, s2), (0, 2, 1), s1 - numEmpty));
        }
      }
    }
  }

  /** The body of the xline loop: the footprint at `xl`, if it passes the three filters. */
  method TryXline(hm: array2<int>, zt: array2<bool>, q: Params, xl: int, height: int) returns (found: Option<Crop>)
    requires ValidParams(hm, q) && height == Anchor(hm, q)
    ensures found == XlineCrop(hm, zt, q, xl)
  {
    var s0, s1 := q.shape.0, q.shape.1;
    found := None;
    if xl > q.safeStripe && xl + s1 < hm.Length1 - q.safeStripe {
      var numMissing := SliceCountTrue(zt, q.p0, q.p0 + s0, xl, xl + s1);
      if numMissing <= q.zerosThreshold {
        var numEmpty := SliceCountEq(hm, q.fillValue, q.p0, q.p0 + s0, xl, xl + s1);
        if numEmpty > q.emptyThreshold {
          found := Some(Crop(q.p0, xl, height, q.shape, (2, 0, 1), s1 - numEmpty));
        }
      }
    }
  }

  /** The iline loop: the footprints at both iline offsets, in order, kept if they pass. */
  method IlineCandidates(hm: array2<int>, zt: array2<bool>, q: Params, height: int) returns (candidates: seq<Crop>)
    requires ValidParams(hm, q) && height == Anchor(hm, q)
    ensures candidates == IlineCollect(hm, zt, q, [], IlinePositions(hm, q))
  {
    var s1 := q.shape.1;
    var tested := [Max(0, q.p0 - q.stride), Min(q.p0 - s1 + q.stride, hm.Length0 - s1)];
    ghost var positions := IlinePositions(hm, q);
    assert tested == positions;
    candidates := [];
    for t := 0 to 2
      invariant candidates == IlineCollect(hm, zt, q, [], tested[..t])
    {
      assert tested[..t + 1][..t] == tested[..t];
      var found := TryIline(hm, zt, q, tested[t], height);
      if found.Some? {
        candidates := candidates + [found.value];
      }
    }
    assert tested[..2] == tested;
  }

  /** The xline loop: the footprints at both xline offsets, in order, appended if they pass. */
  method XlineCandidates(hm: array2<int>, zt: array2<bool>, q: Params, height: int, fromIlines: seq<Crop>)
    returns (candidates: seq<Crop>)
    requires ValidParams(hm, q) && height == Anchor(hm, q)
    ensures candidates == XlineCollect(hm, zt, q, fromIlines, XlinePositions(hm, q))
  {
    var s1 := q.shape.1;
    var tested := [Max(0, q.p1 - q.stride), Min(q.p1 - s1 + q.stride, hm.Length1 - s1)];
    ghost var positions := XlinePositions(hm, q);
    assert tested == positions;
    candidates := fromIlines;
    for t := 0 to 2
      invariant candidates == XlineCollect(hm, zt, q, fromIlines, tested[..t])
    {
      assert tested[..t + 1][..t] == tested[..t];
      var found := TryXline(hm, zt, q, tested[t], height);
      if found.Some? {
        candidates := candidates + [found.value];
      }
    }
    assert tested[..2] == tested;
  }

  /**
   * `gen_crop_coordinates`: None when no footprint passes, otherwise the candidates sorted by score
   * and cut to the first `numPoints` (Python's `[:num_points]`).
   */
  method GenCropCoordinates(hm: array2<int>, zt: array2<bool>, q: Params) returns (r: Option<seq<Crop>>)
    requires ValidParams(hm, q)
    ensures r.None? <==> |Candidates(hm, zt, q)| == 0
    ensures r.Some? ==> r.value == TakePrefix(SortByScore(Candidates(hm, zt, q)), q.numPoints)
  {
    var s2 := q.shape.2;
    var horHeight := hm[q.p0, q.p1];
    var height := Min(horHeight - s2 / 2, q.depth - s2 - 1);
    var candidates := IlineCandidates(hm, zt, q, height);
    candidates := XlineCandidates(hm, zt, q, height, candidates);
    if |candidates| == 0 {
      return None;
    }
    r := Some(TakePrefix(SortByScore(candidates), q.numPoints));
  }

  /** A prefix of a list sorted by score is sorted, and is part of the list. */
  lemma SortedPrefix(all: seq<Crop>, k: int)
    requires SortedByScore(all)
    ensures var top := TakePrefix(all, k);
      SortedByScore(top) && multiset(top) <= multiset(all) && forall c :: c in top ==> c in all
  {
    var top := TakePrefix(all, k);
    assert all == top + all[|top|..];
    assert multiset(all) == multiset(top) + multiset(all[|top|..]);
  }

  /**
   * What the caller receives: at most min(numPoints, 4) crops (for numPoints >= 0), ascending by score,
   * each one a candidate that passed the filters.
   */
  lemma GenCropResult(hm: array2<int>, zt: array2<bool>, q: Params, top: seq<Crop>)
    requires ValidParams(hm, q)
    requires top == TakePrefix(SortByScore(Candidates(hm, zt, q)), q.numPoints)
    ensures |top| <= 4 && (q.numPoints >= 0 ==> |top| <= q.numPoints)
    ensures SortedByScore(top)
    ensures multiset(top) <= multiset(Candidates(hm, zt, q))
    ensures forall c :: c in top ==> PassesAsIline(hm, zt, q, c) || PassesAsXline(hm, zt, q, c)
  {
    var cands := Candidates(hm, zt, q);
    var all := SortByScore(cands);
    CandidatesPassFilters(hm, zt, q);
    assert |all| == |cands| by {
      assert |multiset(all)| == |multiset(cands)|;
    }
    SortedPrefix(all, q.numPoints);
    forall c | c in top ensures c in cands {
      assert c in multiset(all);
    }
  }
}
