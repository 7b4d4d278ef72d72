/**
 * The inference grid of seismiqb: `SeismicCubeset.make_grid` in seismiqb/src/cubeset.py and its
 * twin `make_axis_grid` in seismiqb/src/utils.py. Per-axis ticks are laid out with a stride and a
 * corrected last tick, their cross product is tagged with the cube name, and the rows are handed
 * out in fixed-size batches by a cursor.
 */
module Grid {
  import opened Wrappers
  import opened Basics

  function Min(a: int, b: int): int { if a < b then a else b }

  // ---------------------------------------------------------------------------------------------
  // Per-axis ticks

  predicate StrictlySorted(s: seq<int>)
  {
    forall i, j :: 0 <= i < j < |s| ==> s[i] < s[j]
  }

  /** `np.arange(lo, hi, stride)` for a positive stride. */
  function Arange(lo: int, hi: int, stride: int): seq<int>
    requires stride > 0
    decreases hi - lo
  {
    if lo >= hi then [] else [lo] + Arange(lo + stride, hi, stride)
  }

  /**
   * The ticks are empty exactly when the range is; otherwise they start at `lo`, step by `stride`,
   * stay in `[lo, hi)` and stop at the last one below `hi`.
   */
  lemma {:induction false} ArangeSteps(lo: int, hi: int, stride: int)
    requires stride > 0
    ensures var r := Arange(lo, hi, stride);
      (lo < hi <==> |r| > 0) &&
      (forall i :: 0 <= i < |r| ==> lo <= r[i] < hi) &&
      (|r| > 0 ==> r[0] == lo && r[|r| - 1] < hi <= r[|r| - 1] + stride)
    ensures var r := Arange(lo, hi, stride);
      forall i :: 0 <= i < |r| - 1 ==> r[i + 1] == r[i] + stride
    decreases hi - lo
  {
    if lo < hi {
      ArangeSteps(lo + stride, hi, stride);
      var r := Arange(lo, hi, stride);
      var rest := Arange(lo + stride, hi, stride);
      assert r == [lo] + rest;
      forall i | 0 <= i < |r| - 1 ensures r[i + 1] == r[i] + stride {
        if i > 0 {
          assert r[i] == rest[i - 1] && r[i + 1] == rest[i];
        }
      }
      forall i | 0 <= i < |r| ensures lo <= r[i] < hi {
        if i > 0 {
          assert r[i] == rest[i - 1];
        }
      }
    }
  }

  /** The comprehension that keeps the ticks whose crop ends strictly inside the axis. */
  function Keep(ticks: seq<int>, length: int, crop: int): seq<int>
  {
    if |ticks| == 0 then []
    else if ticks[0] + crop < length then [ticks[0]] + Keep(ticks[1..], length, crop)
    else Keep(ticks[1..], length, crop)
  }

  /**
   * The comprehension keeps exactly the ticks whose crop fits, and it loses length exactly when
   * some tick's crop overruns the axis.
   */
  lemma {:induction false} KeepMembers(ticks: seq<int>, length: int, crop: int)
    ensures forall t :: t in Keep(ticks, length, crop) <==> t in ticks && t + crop < length
    ensures |Keep(ticks, length, crop)| <= |ticks|
    ensures |Keep(ticks, length, crop)| < |ticks| <==> exists t :: t in ticks && t + crop >= length
  {
    if |ticks| > 0 {
      KeepMembers(ticks[1..], length, crop);
      assert forall t :: t in ticks <==> t == ticks[0] || t in ticks[1..];
      if ticks[0] + crop >= length {
        assert ticks[0] in ticks;
      } else {
        assert (exists t :: t in ticks && t + crop >= length) <==> (exists t :: t in ticks[1..] && t + crop >= length);
      }
    }
  }

  /** Inserts `x` before the first element it does not exceed. */
  function Insert(s: seq<int>, x: int): seq<int>
  {
    if |s| == 0 || x <= s[0] then [x] + s else [s[0]] + Insert(s[1..], x)
  }

  /** Inserting adds exactly `x`. */
  lemma {:induction false} InsertMultiset(s: seq<int>, x: int)
    ensures multiset(Insert(s, x)) == multiset(s) + multiset{x} && |Insert(s, x)| == |s| + 1
  {
    if |s| > 0 && x > s[0] {
      InsertMultiset(s[1..], x);
      assert s == [s[0]] + s[1..];
    }
  }

  lemma InsertHead(s: seq<int>, x: int)
    requires |s| > 0
    ensures Insert(s, x)[0] == Min(x, s[0])
  {
  }

  /** Inserting into a sorted sequence keeps it sorted. */
  lemma {:induction false} InsertSorted(s: seq<int>, x: int)
    requires Sorted(s)
    ensures Sorted(Insert(s, x))
  {
    if |s| > 0 && x > s[0] {
      var rest := Insert(s[1..], x);
      assert Sorted(s[1..]) by {
        forall i, j | 0 <= i < j < |s| - 1 ensures s[1..][i] <= s[1..][j] {
          assert s[1..][i] == s[i + 1] && s[1..][j] == s[j + 1];
        }
      }
      InsertSorted(s[1..], x);
      assert rest[0] >= s[0] by {
        if |s| > 1 {
          InsertHead(s[1..], x);
          assert s[1..][0] == s[1];
        }
      }
      var r := [s[0]] + rest;
      assert Insert(s, x) == r;
      forall i, j | 0 <= i < j < |r| ensures r[i] <= r[j] {
        if i == 0 {
          assert r[j] == rest[j - 1] && rest[0] <= rest[j - 1];
        } else {
          assert r[i] == rest[i - 1] && r[j] == rest[j - 1];
        }
      }
    }
  }

  /** Python's `sorted` on integers. */
  function SortInts(s: seq<int>): seq<int>
  {
    if |s| == 0 then [] else Insert(SortInts(s[..|s| - 1]), s[|s| - 1])
  }

  /** The result is sorted and a permutation of the input. */
  lemma {:induction false} SortIntsSorted(s: seq<int>)
    ensures var r := SortInts(s);
      Sorted(r) && multiset(r) == multiset(s) && |r| == |s|
  {
    if |s| > 0 {
      SortIntsSorted(s[..|s| - 1]);
      InsertSorted(SortInts(s[..|s| - 1]), s[|s| - 1]);
      InsertMultiset(SortInts(s[..|s| - 1]), s[|s| - 1]);
      assert s == s[..|s| - 1] + [s[|s| - 1]];
    }
  }

  /** Whether some tick of the arange was dropped because its crop overruns the axis. */
  predicate Dropped(lo: int, hi: int, stride: int, length: int, crop: int)
    requires stride > 0
  {
    |Keep(Arange(lo, hi, stride), length, crop)| != |Arange(lo, hi, stride)|
  }

  /** `make_axis_grid(axis_range, stride, length, crop_shape)`. */
  function AxisGrid(lo: int, hi: int, stride: int, length: int, crop: int): seq<int>
    requires stride > 0
  {
    var kept := Keep(Arange(lo, hi, stride), length, crop);
    SortInts(if Dropped(lo, hi, stride, length, crop) then kept + [hi - crop] else kept)
  }

  /**
   * The ticks are sorted; they are the arange ticks whose crop fits, plus `hi - crop` exactly when
   * some tick was dropped, and that corrected tick is the only one added.
   */
  lemma AxisGridTicks(lo: int, hi: int, stride: int, length: int, crop: int)
    requires stride > 0
    ensures Sorted(AxisGrid(lo, hi, stride, length, crop))
    ensures forall t :: t in AxisGrid(lo, hi, stride, length, crop) <==>
      (t in Arange(lo, hi, stride) && t + crop < length) || (t == hi - crop && Dropped(lo, hi, stride, length, crop))
    ensures |AxisGrid(lo, hi, stride, length, crop)|
         == |Keep(Arange(lo, hi, stride), length, crop)| + if Dropped(lo, hi, stride, length, crop) then 1 else 0
  {
    var kept := Keep(Arange(lo, hi, stride), length, crop);
    KeepMembers(Arange(lo, hi, stride), length, crop);
    var s := if Dropped(lo, hi, stride, length, crop) then kept + [hi - crop] else kept;
    SortIntsSorted(s);
    SameMembers(SortInts(s), s);
  }

  /** A tick is dropped exactly when some arange tick's crop reaches the end of the axis. */
  lemma DroppedIff(lo: int, hi: int, stride: int, length: int, crop: int)
    requires stride > 0
    ensures Dropped(lo, hi, stride, length, crop) <==> exists t :: t in Arange(lo, hi, stride) && t + crop >= length
  {
    KeepMembers(Arange(lo, hi, stride), length, crop);
    if Dropped(lo, hi, stride, length, crop) {
      var t :| t in Arange(lo, hi, stride) && t + crop >= length;
      assert t in Arange(lo, hi, stride);
    }
  }

  lemma SameMembers(a: seq<int>, b: seq<int>)
    requires multiset(a) == multiset(b)
    ensures forall t :: t in a <==> t in b
  {
    forall t ensures t in a <==> t in b {
      assert t in a <==> t in multiset(a);
      assert t in b <==> t in multiset(b);
    }
  }

  /** Every tick is empty exactly when the range is. */
  lemma AxisGridEmpty(lo: int, hi: int, stride: int, length: int, crop: int)
    requires stride > 0
    ensures |AxisGrid(lo, hi, stride, length, crop)| == 0 <==> hi <= lo
  {
    AxisGridTicks(lo, hi, stride, length, crop);
    ArangeSteps(lo, hi, stride);
  }

  /** With the end inside the axis, every crop placed at a tick ends strictly inside the axis. */
  lemma AxisGridCropsFit(lo: int, hi: int, stride: int, length: int, crop: int)
    requires stride > 0 && hi < length
    ensures forall t :: t in AxisGrid(lo, hi, stride, length, crop) ==> t + crop < length
  {
    AxisGridTicks(lo, hi, stride, length, crop);
  }

  /** Every point of a non-empty range lies within one stride after some arange tick. */
  lemma {:induction false} ArangeCovers(lo: int, hi: int, stride: int, x: int)
    requires stride > 0 && lo <= x < hi
    ensures exists t :: t in Arange(lo, hi, stride) && t <= x < t + stride
    decreases hi - lo
  {
    assert Arange(lo, hi, stride) == [lo] + Arange(lo + stride, hi, stride);
    if x < lo + stride {
      assert lo in Arange(lo, hi, stride);
    } else {
      ArangeCovers(lo + stride, hi, stride, x);
      var t :| t in Arange(lo + stride, hi, stride) && t <= x < t + stride;
      assert t in Arange(lo, hi, stride);
    }
  }

  /**
   * With a stride no larger than the crop and the range end inside the axis, the crops placed at
   * the ticks cover the whole range: a dropped tick's points are covered by the corrected tick.
   */
  lemma AxisGridCovers(lo: int, hi: int, stride: int, length: int, crop: int, x: int)
    requires 0 < stride <= crop && lo <= x < hi <= length
    ensures exists t :: t in AxisGrid(lo, hi, stride, length, crop) && t <= x < t + crop
  {
    ArangeCovers(lo, hi, stride, x);
    var t :| t in Arange(lo, hi, stride) && t <= x < t + stride;
    AxisGridTicks(lo, hi, stride, length, crop);
    if t + crop < length {
      assert t in AxisGrid(lo, hi, stride, length, crop);
    } else {
      DroppedIff(lo, hi, stride, length, crop);
      assert hi - crop in AxisGrid(lo, hi, stride, length, crop);
    }
  }

  /** With a stride larger than the crop the ticks leave gaps: point 2 of [0, 10) is in no crop of width 2. */
  lemma AxisGridGap()
    ensures AxisGrid(0, 10, 4, 20, 2) == [0, 4, 8]
    ensures forall t :: t in AxisGrid(0, 10, 4, 20, 2) ==> !(t <= 2 < t + 2)
  {
    assert Arange(12, 10, 4) == [];
    assert Arange(8, 10, 4) == [8];
    assert Arange(4, 10, 4) == [4, 8];
    assert Arange(0, 10, 4) == [0, 4, 8];
    assert Keep([0, 4, 8], 20, 2) == [0, 4, 8];
    assert SortInts([0]) == [0];
    assert SortInts([0, 4]) == [0, 4];
    assert SortInts([0, 4, 8]) == [0, 4, 8];
  }

  /** Range [0, 10), stride 4, crop 3 on an axis of length 11: the tick 8 is replaced by 7. */
  lemma AxisGridExample()
    ensures AxisGrid(0, 10, 4, 11, 3) == [0, 4, 7]
  {
    assert Arange(12, 10, 4) == [];
    assert Arange(8, 10, 4) == [8];
    assert Arange(4, 10, 4) == [4, 8];
    assert Arange(0, 10, 4) == [0, 4, 8];
    assert Keep([8], 11, 3) == [];
    assert Keep([4, 8], 11, 3) == [4];
    assert Keep([0, 4, 8], 11, 3) == [0, 4];
    assert SortInts([0]) == [0];
    assert SortInts([0, 4]) == [0, 4];
    assert Insert([4], 7) == [4, 7];
    assert Insert([0, 4], 7) == [0, 4, 7];
    assert [0, 4, 7][..2] == [0, 4];
  }

  /** The corrected last tick can repeat a kept tick: range [0, 9), stride 4, crop 5, length 10. */
  lemma AxisGridRepeats()
    ensures AxisGrid(0, 9, 4, 10, 5) == [0, 4, 4]
  {
    assert Arange(12, 9, 4) == [];
    assert Arange(8, 9, 4) == [8];
    assert Arange(4, 9, 4) == [4, 8];
    assert Arange(0, 9, 4) == [0, 4, 8];
    assert Keep([8], 10, 5) == [];
    assert Keep([4, 8], 10, 5) == [4];
    assert Keep([0, 4, 8], 10, 5) == [0, 4];
    assert SortInts([0]) == [0];
    assert SortInts([0, 4]) == [0, 4];
    assert Insert([4], 4) == [4, 4];
    assert Insert([0, 4], 4) == [0, 4, 4];
    assert [0, 4, 4][..2] == [0, 4];
  }

  // ---------------------------------------------------------------------------------------------
  // Cross product

  /** A grid row: the cube name followed by iline, xline and depth. */
  datatype Point = Point(cube: string, iline: int, xline: int, h: int)

  /** The rows for one (iline, xline) pair, one per depth tick. */
  function Line(name: string, il: int, xl: int, hs: seq<int>): (r: seq<Point>)
    ensures |r| == |hs|
  {
    if |hs| == 0 then [] else Line(name, il, xl, hs[..|hs| - 1]) + [Point(name, il, xl, hs[|hs| - 1])]
  }

  /** The rows for one iline, xline by xline. */
  function Plane(name: string, il: int, xls: seq<int>, hs: seq<int>): seq<Point>
  {
    if |xls| == 0 then [] else Plane(name, il, xls[..|xls| - 1], hs) + Line(name, il, xls[|xls| - 1], hs)
  }

  /** The whole grid, iline by iline. */
  function Cube(name: string, ils: seq<int>, xls: seq<int>, hs: seq<int>): seq<Point>
  {
    if |ils| == 0 then [] else Cube(name, ils[..|ils| - 1], xls, hs) + Plane(name, ils[|ils| - 1], xls, hs)
  }

  /**
   * The triple loop that appends `[cube_name, il, xl, h]` for every combination of ticks; the two
   * inner loops are `AppendPlane` and `AppendLine`.
   */
  method CrossProduct(name: string, ilines: seq<int>, xlines: seq<int>, hs: seq<int>) returns (grid: seq<Point>)
    ensures grid == Cube(name, ilines, xlines, hs)
  {
    grid := [];
    for i := 0 to |ilines|
      invariant grid == Cube(name, ilines[..i], xlines, hs)
    {
      grid := AppendPlane(grid, name, ilines[i], xlines, hs);
      assert ilines[..i + 1][..i] == ilines[..i];
    }
    assert ilines[..|ilines|] == ilines;
  }

  /** The middle loop: the rows of one iline appended, xline by xline. */
  method AppendPlane(grid: seq<Point>, name: string, il: int, xlines: seq<int>, hs: seq<int>) returns (g: seq<Point>)
    ensures g == grid + Plane(name, il, xlines, hs)
  {
    g := grid;
    for j := 0 to |xlines|
      invariant g == grid + Plane(name, il, xlines[..j], hs)
    {
      g := AppendLine(g, name, il, xlines[j], hs);
      assert xlines[..j + 1][..j] == xlines[..j];
    }
    assert xlines[..|xlines|] == xlines;
  }

  /** The inner loop: the rows of one (iline, xline) pair appended, depth by depth. */
  method AppendLine(grid: seq<Point>, name: string, il: int, xl: int, hs: seq<int>) returns (g: seq<Point>)
    ensures g == grid + Line(name, il, xl, hs)
  {
    g := grid;
    for k := 0 to |hs|
      invariant g == grid + Line(name, il, xl, hs[..k])
    {
      g := g + [Point(name, il, xl, hs[k])];
      assert hs[..k + 1][..k] == hs[..k];
    }
    assert hs[..|hs|] == hs;
  }

  lemma {:induction false} LineMembers(name: string, il: int, xl: int, hs: seq<int>, p: Point)
    ensures p in Line(name, il, xl, hs) <==> p.cube == name && p.iline == il && p.xline == xl && p.h in hs
    decreases |hs|
  {
    if |hs| > 0 {
      LineMembers(name, il, xl, hs[..|hs| - 1], p);
      assert hs == hs[..|hs| - 1] + [hs[|hs| - 1]];
    }
  }

  lemma {:induction false} PlaneMembers(name: string, il: int, xls: seq<int>, hs: seq<int>, p: Point)
    ensures p in Plane(name, il, xls, hs) <==> p.cube == name && p.iline == il && p.xline in xls && p.h in hs
    decreases |xls|
  {
    if |xls| > 0 {
      PlaneMembers(name, il, xls[..|xls| - 1], hs, p);
      LineMembers(name, il, xls[|xls| - 1], hs, p);
      assert xls == xls[..|xls| - 1] + [xls[|xls| - 1]];
    }
  }

  /** A row is in the grid exactly when it carries the cube name and a tick of every axis. */
  lemma {:induction false} CubeMembers(name: string, ils: seq<int>, xls: seq<int>, hs: seq<int>, p: Point)
    ensures p in Cube(name, ils, xls, hs) <==> p.cube == name && p.iline in ils && p.xline in xls && p.h in hs
    decreases |ils|
  {
    if |ils| > 0 {
      CubeMembers(name, ils[..|ils| - 1], xls, hs, p);
      PlaneMembers(name, ils[|ils| - 1], xls, hs, p);
      assert ils == ils[..|ils| - 1] + [ils[|ils| - 1]];
    }
  }

  lemma {:induction false} PlaneLength(name: string, il: int, xls: seq<int>, hs: seq<int>)
    ensures |Plane(name, il, xls, hs)| == |xls| * |hs|
    decreases |xls|
  {
    if |xls| > 0 {
      PlaneLength(name, il, xls[..|xls| - 1], hs);
      assert (|xls| - 1) * |hs| + |hs| == |xls| * |hs|;
    }
  }

  /** The grid has one row per combination of ticks. */
  lemma {:induction false} CubeLength(name: string, ils: seq<int>, xls: seq<int>, hs: seq<int>)
    ensures |Cube(name, ils, xls, hs)| == |ils| * (|xls| * |hs|)
    decreases |ils|
  {
    if |ils| > 0 {
      CubeLength(name, ils[..|ils| - 1], xls, hs);
      PlaneLength(name, ils[|ils| - 1], xls, hs);
      MulSucc(|ils| - 1, |xls| * |hs|);
    }
  }

  lemma MulSucc(n: nat, m: nat)
    ensures n * m + m == (n + 1) * m
  {
  }

  /** The grid is empty exactly when one of the axes has no tick. */
  lemma CubeEmpty(name: string, ils: seq<int>, xls: seq<int>, hs: seq<int>)
    ensures |Cube(name, ils, xls, hs)| == 0 <==> |ils| == 0 || |xls| == 0 || |hs| == 0
  {
    CubeLength(name, ils, xls, hs);
    MulNonneg(|xls|, |hs|);
    MulNonneg(|ils|, |xls| * |hs|);
  }

  /** Lexicographic order on (iline, xline, depth). */
  predicate Precedes(p: Point, q: Point)
  {
    p.iline < q.iline || (p.iline == q.iline && (p.xline < q.xline || (p.xline == q.xline && p.h < q.h)))
  }

  predicate LexSorted(s: seq<Point>)
  {
    forall a, b :: 0 <= a < b < |s| ==> Precedes(s[a], s[b])
  }

  lemma ConcatLexSorted(s: seq<Point>, t: seq<Point>)
    requires LexSorted(s) && LexSorted(t)
    requires forall x, y :: x in s && y in t ==> Precedes(x, y)
    ensures LexSorted(s + t)
  {
    forall a, b | 0 <= a < b < |s + t| ensures Precedes((s + t)[a], (s + t)[b]) {
      if b < |s| {
        assert (s + t)[a] == s[a] && (s + t)[b] == s[b];
      } else if a >= |s| {
        assert (s + t)[a] == t[a - |s|] && (s + t)[b] == t[b - |s|];
      } else {
        assert (s + t)[a] in s && (s + t)[b] in t;
      }
    }
  }

  lemma {:induction false} LineLexSorted(name: string, il: int, xl: int, hs: seq<int>)
    requires StrictlySorted(hs)
    ensures LexSorted(Line(name, il, xl, hs))
    decreases |hs|
  {
    if |hs| > 0 {
      var init := hs[..|hs| - 1];
      LineLexSorted(name, il, xl, init);
      forall x | x in Line(name, il, xl, init) ensures Precedes(x, Point(name, il, xl, hs[|hs| - 1])) {
        LineMembers(name, il, xl, init, x);
      }
      ConcatLexSorted(Line(name, il, xl, init), [Point(name, il, xl, hs[|hs| - 1])]);
    }
  }

  lemma {:induction false} PlaneLexSorted(name: string, il: int, xls: seq<int>, hs: seq<int>)
    requires StrictlySorted(xls) && StrictlySorted(hs)
    ensures LexSorted(Plane(name, il, xls, hs))
    decreases |xls|
  {
    if |xls| > 0 {
      var init, last := xls[..|xls| - 1], xls[|xls| - 1];
      PlaneLexSorted(name, il, init, hs);
      LineLexSorted(name, il, last, hs);
      forall x, y | x in Plane(name, il, init, hs) && y in Line(name, il, last, hs) ensures Precedes(x, y) {
        PlaneMembers(name, il, init, hs, x);
        LineMembers(name, il, last, hs, y);
      }
      ConcatLexSorted(Plane(name, il, init, hs), Line(name, il, last, hs));
    }
  }

  /** With strictly increasing ticks, the rows come in strictly increasing lexicographic order. */
  lemma {:induction false} CubeLexSorted(name: string, ils: seq<int>, xls: seq<int>, hs: seq<int>)
    requires StrictlySorted(ils) && StrictlySorted(xls) && StrictlySorted(hs)
    ensures LexSorted(Cube(name, ils, xls, hs))
    decreases |ils|
  {
    if |ils| > 0 {
      var init, last := ils[..|ils| - 1], ils[|ils| - 1];
      CubeLexSorted(name, init, xls, hs);
      PlaneLexSorted(name, last, xls, hs);
      forall x, y | x in Cube(name, init, xls, hs) && y in Plane(name, last, xls, hs) ensures Precedes(x, y) {
        CubeMembers(name, init, xls, hs, x);
        PlaneMembers(name, last, xls, hs, y);
      }
      ConcatLexSorted(Cube(name, init, xls, hs), Plane(name, last, xls, hs));
    }
  }

  // ---------------------------------------------------------------------------------------------
  // Batches

  /** The slices `grid[i:i+batch_size]` for `i` in `range(0, len(grid), batch_size)`. */
  function Batches<T>(s: seq<T>, batchSize: nat): seq<seq<T>>
    requires batchSize > 0
    decreases |s|
  {
    if |s| == 0 then [] else [s[..Min(batchSize, |s|)]] + Batches(s[Min(batchSize, |s|)..], batchSize)
  }

  function Flatten<T>(ss: seq<seq<T>>): seq<T>
  {
    if |ss| == 0 then [] else ss[0] + Flatten(ss[1..])
  }

  /** `-(-n // batch_size)`: floor division of a negated count, negated again. */
  function GridIters(n: int, batchSize: int): int
    requires batchSize > 0
  {
    -((-n) / batchSize)
  }

  /** `grid_iters` is the ceiling of the count divided by the batch size. */
  lemma GridItersIsCeiling(n: int, batchSize: int)
    requires n >= 0 && batchSize > 0
    ensures GridIters(n, batchSize) >= 0
    ensures (GridIters(n, batchSize) - 1) * batchSize < n <= GridIters(n, batchSize) * batchSize
  {
    var q, r := (-n) / batchSize, (-n) % batchSize;
    assert -n == q * batchSize + r && 0 <= r < batchSize;
    assert (-q) * batchSize == -(q * batchSize);
    assert (-q - 1) * batchSize == -(q * batchSize) - batchSize;
    if -q < 0 {
      MulAtLeast(q, batchSize);
    }
  }

  /** One more batch is handed out for every `batch_size` rows, the last one possibly shorter. */
  lemma GridItersStep(n: int, batchSize: int)
    requires batchSize > 0 && n > 0
    ensures GridIters(n, batchSize) == 1 + GridIters(n - Min(batchSize, n), batchSize)
  {
    if n <= batchSize {
      DivModUnique(-n, batchSize, -1, batchSize - n);
    } else {
      var m := n - batchSize;
      var q, r := (-m) / batchSize, (-m) % batchSize;
      assert (q - 1) * batchSize == q * batchSize - batchSize;
      DivModUnique(-n, batchSize, q - 1, r);
    }
  }

  /**
   * The batches are non-empty, hold `batch_size` rows except possibly the last, concatenate back
   * to the grid, and there are `grid_iters` of them.
   */
  lemma {:induction false} BatchesPartition<T>(s: seq<T>, batchSize: nat)
    requires batchSize > 0
    ensures var bs := Batches(s, batchSize);
      Flatten(bs) == s && |bs| == GridIters(|s|, batchSize) &&
      (forall i :: 0 <= i < |bs| ==> 0 < |bs[i]| <= batchSize) &&
      (forall i :: 0 <= i < |bs| - 1 ==> |bs[i]| == batchSize)
    decreases |s|
  {
    if |s| == 0 {
      assert GridIters(0, batchSize) == 0;
    } else {
      var k := Min(batchSize, |s|);
      BatchesPartition(s[k..], batchSize);
      GridItersStep(|s|, batchSize);
      var bs := Batches(s, batchSize);
      var rest := Batches(s[k..], batchSize);
      assert bs == [s[..k]] + rest;
      assert bs[1..] == rest;
      assert s == s[..k] + s[k..];
      forall i | 0 <= i < |bs| - 1 ensures |bs[i]| == batchSize {
        if i > 0 {
          assert bs[i] == rest[i - 1];
        } else {
          assert |rest| > 0;
          assert |s| > batchSize;
        }
      }
      forall i | 0 <= i < |bs| ensures 0 < |bs[i]| <= batchSize {
        if i > 0 {
          assert bs[i] == rest[i - 1];
        }
      }
    }
  }

  /** Why the cursor stopped: `next` on an exhausted generator. */
  datatype Exhausted = StopIteration

  /** The generator behind `grid_gen`: the grid, the batch size and the next start index. */
  class GridCursor {
    var grid: seq<Point>
    var batchSize: nat
    var index: nat

    ghost predicate Valid()
      reads this
    {
      batchSize > 0
    }

    /** The batches still to be handed out. */
    function Remaining(): seq<seq<Point>>
      reads this
      requires Valid()
    {
      Batches(grid[Min(index, |grid|)..], batchSize)
    }

    constructor (grid: seq<Point>, batchSize: nat)
      requires batchSize > 0
      ensures Valid() && this.grid == grid && this.batchSize == batchSize && index == 0
      ensures Remaining() == Batches(grid, batchSize)
    {
      this.grid := grid;
      this.batchSize := batchSize;
      index := 0;
    }

    /** `grid_gen()`: the next slice, or `StopIteration` once the grid is used up. */
    method Next() returns (r: Result<seq<Point>, Exhausted>)
      requires Valid()
      modifies this
      ensures Valid() && grid == old(grid) && batchSize == old(batchSize)
      ensures old(Remaining()) == [] ==> r == Err(StopIteration) && Remaining() == []
      ensures old(Remaining()) != [] ==> r == Ok(old(Remaining())[0]) && Remaining() == old(Remaining())[1..]
    {
      if index >= |grid| {
        r := Err(StopIteration);
      } else {
        var end := Min(index + batchSize, |grid|);
        ghost var rest := grid[index..];
        assert rest[..Min(batchSize, |rest|)] == grid[index..end];
        assert rest[Min(batchSize, |rest|)..] == grid[Min(index + batchSize, |grid|)..];
        r := Ok(grid[index..end]);
        index := index + batchSize;
      }
    }
  }

  // ---------------------------------------------------------------------------------------------
  // Offsets, grid information and `make_grid`

  type Triple = (int, int, int)

  function Coord(p: Point, axis: nat): int
    requires axis < 3
  {
    if axis == 0 then p.iline else if axis == 1 then p.xline else p.h
  }

  /** `min(grid[:, axis + 1])`: the smallest coordinate of a column. */
  function ColumnMin(g: seq<Point>, axis: nat): (m: int)
    requires |g| > 0 && axis < 3
    ensures forall i :: 0 <= i < |g| ==> m <= Coord(g[i], axis)
    ensures exists i :: 0 <= i < |g| && Coord(g[i], axis) == m
  {
    if |g| == 1 then Coord(g[0], axis)
    else
      var m := ColumnMin(g[1..], axis);
      assert forall i :: 1 <= i < |g| ==> g[i] == g[1..][i - 1];
      if Coord(g[0], axis) <= m then Coord(g[0], axis) else m
  }

  /** `offsets`: the per-column minima of the grid coordinates. */
  function Offsets(g: seq<Point>): Triple
    requires |g| > 0
  {
    (ColumnMin(g, 0), ColumnMin(g, 1), ColumnMin(g, 2))
  }

  /** `grid[:, 1:] - offsets`: the coordinates of every row relative to the offsets. */
  function GridArray(g: seq<Point>, offsets: Triple): (a: seq<Triple>)
    ensures |a| == |g|
  {
    seq(|g|, i requires 0 <= i < |g| => (g[i].iline - offsets.0, g[i].xline - offsets.1, g[i].h - offsets.2))
  }

  /** Relative to the column minima, every coordinate is non-negative and every column reaches zero. */
  lemma GridArrayFromZero(g: seq<Point>)
    requires |g| > 0
    ensures var a := GridArray(g, Offsets(g));
      (forall i :: 0 <= i < |a| ==> a[i].0 >= 0 && a[i].1 >= 0 && a[i].2 >= 0) &&
      (exists i :: 0 <= i < |a| && a[i].0 == 0) &&
      (exists i :: 0 <= i < |a| && a[i].1 == 0) &&
      (exists i :: 0 <= i < |a| && a[i].2 == 0)
  {
    var a := GridArray(g, Offsets(g));
    forall i | 0 <= i < |a| ensures a[i].0 >= 0 && a[i].1 >= 0 && a[i].2 >= 0 {
      assert Coord(g[i], 0) >= ColumnMin(g, 0);
      assert Coord(g[i], 1) >= ColumnMin(g, 1);
      assert Coord(g[i], 2) >= ColumnMin(g, 2);
    }
    var i0 :| 0 <= i0 < |g| && Coord(g[i0], 0) == ColumnMin(g, 0);
    var i1 :| 0 <= i1 < |g| && Coord(g[i1], 1) == ColumnMin(g, 1);
    var i2 :| 0 <= i2 < |g| && Coord(g[i2], 2) == ColumnMin(g, 2);
    assert a[i0].0 == 0 && a[i1].1 == 0 && a[i2].2 == 0;
  }

  lemma FirstIsLeast(s: seq<int>, v: int)
    requires Sorted(s) && v in s
    ensures s[0] <= v
  {
  }

  /** A column whose entry `k` is no larger than any other has `k`'s coordinate as its minimum. */
  lemma ColumnMinIs(g: seq<Point>, axis: nat, k: nat)
    requires axis < 3 && k < |g|
    requires forall i :: 0 <= i < |g| ==> Coord(g[k], axis) <= Coord(g[i], axis)
    ensures ColumnMin(g, axis) == Coord(g[k], axis)
  {
  }

  /** For sorted non-empty ticks, the offsets are the first tick of every axis. */
  lemma OffsetsAreFirstTicks(name: string, ils: seq<int>, xls: seq<int>, hs: seq<int>)
    requires |ils| > 0 && |xls| > 0 && |hs| > 0
    requires Sorted(ils) && Sorted(xls) && Sorted(hs)
    ensures |Cube(name, ils, xls, hs)| > 0
    ensures Offsets(Cube(name, ils, xls, hs)) == (ils[0], xls[0], hs[0])
  {
    var g := Cube(name, ils, xls, hs);
    var first := Point(name, ils[0], xls[0], hs[0]);
    CubeMembers(name, ils, xls, hs, first);
    var k :| 0 <= k < |g| && g[k] == first;
    forall i | 0 <= i < |g| ensures ils[0] <= g[i].iline && xls[0] <= g[i].xline && hs[0] <= g[i].h {
      CubeMembers(name, ils, xls, hs, g[i]);
      FirstIsLeast(ils, g[i].iline);
      FirstIsLeast(xls, g[i].xline);
      FirstIsLeast(hs, g[i].h);
    }
    ColumnMinIs(g, 0, k);
    ColumnMinIs(g, 1, k);
    ColumnMinIs(g, 2, k);
  }

  /**
   * `grid_info`: the grid relative to its offsets, `predict_shape` (the extent of every range), and
   * the crop shape, cube name and ranges as given.
   */
  function DescribeGrid(rows: seq<Point>, cropShape: Triple, cubeName: string, il: Range, xl: Range, h: Range): (info: GridInfo)
    requires |rows| > 0
    ensures |info.gridArray| == |rows|
    ensures info.predictShape.0 == il.end - il.start && info.predictShape.1 == xl.end - xl.start
    ensures info.predictShape.2 == h.end - h.start
    ensures info.cropShape == cropShape && info.cubeName == cubeName && info.ranges == (il, xl, h)
  {
    GridInfo(GridArray(rows, Offsets(rows)), (il.end - il.start, xl.end - xl.start, h.end - h.start),
             cropShape, cubeName, (il, xl, h))
  }

  /** What a `SeismicGeometry` contributes to the grid: the cube shape. */
  datatype Geometry = Geometry(ilinesLen: int, xlinesLen: int, depth: int)

  /** A two-element range `[start, end]`. */
  datatype Range = Range(start: int, end: int)

  /** The `grid_info` dictionary. */
  datatype GridInfo = GridInfo(gridArray: seq<Triple>, predictShape: Triple, cropShape: Triple,
                               cubeName: string, ranges: (Range, Range, Range))

  /** `KeyError` for an unknown cube, the range `ValueError`, and the `IndexError` of `grid[:, 1]` on an empty grid. */
  datatype GridError = UnknownCube | RangeOutsideCube | EmptyGrid

  /** `strides or crop_shape`. */
  function EffectiveStrides(strides: Option<Triple>, cropShape: Triple): Triple
  {
    match strides
    case None => cropShape
    case Some(s) => s
  }

  predicate PositiveTriple(t: Triple)
  {
    t.0 > 0 && t.1 > 0 && t.2 > 0
  }

  /** Both range checks of `make_grid`. */
  predicate RangesInside(geom: Geometry, il: Range, xl: Range, h: Range)
  {
    il.start >= 0 && xl.start >= 0 && h.start >= 0 &&
    il.end < geom.ilinesLen && xl.end < geom.xlinesLen && h.end < geom.depth
  }

  /** The rows `make_grid` builds for a cube of the given geometry. */
  function GridRows(name: string, geom: Geometry, crop: Triple, st: Triple, il: Range, xl: Range, h: Range): seq<Point>
    requires PositiveTriple(st)
  {
    Cube(name, AxisGrid(il.start, il.end, st.0, geom.ilinesLen, crop.0),
               AxisGrid(xl.start, xl.end, st.1, geom.xlinesLen, crop.1),
               AxisGrid(h.start, h.end, st.2, geom.depth, crop.2))
  }

  /** The per-axis ticks followed by the triple loop. */
  method BuildRows(name: string, geom: Geometry, crop: Triple, st: Triple, il: Range, xl: Range, h: Range)
    returns (grid: seq<Point>)
    requires PositiveTriple(st)
    ensures grid == GridRows(name, geom, crop, st, il, xl, h)
  {
    var ilines := AxisGrid(il.start, il.end, st.0, geom.ilinesLen, crop.0);
    var xlines := AxisGrid(xl.start, xl.end, st.1, geom.xlinesLen, crop.1);
    var hs := AxisGrid(h.start, h.end, st.2, geom.depth, crop.2);
    grid := CrossProduct(name, ilines, xlines, hs);
  }

  /** The grid is empty exactly when one of the ranges is. */
  lemma GridRowsEmpty(name: string, geom: Geometry, crop: Triple, st: Triple, il: Range, xl: Range, h: Range)
    requires PositiveTriple(st)
    ensures |GridRows(name, geom, crop, st, il, xl, h)| == 0 <==> il.end <= il.start || xl.end <= xl.start || h.end <= h.start
  {
    var ils := AxisGrid(il.start, il.end, st.0, geom.ilinesLen, crop.0);
    var xls := AxisGrid(xl.start, xl.end, st.1, geom.xlinesLen, crop.1);
    var hs := AxisGrid(h.start, h.end, st.2, geom.depth, crop.2);
    AxisGridEmpty(il.start, il.end, st.0, geom.ilinesLen, crop.0);
    AxisGridEmpty(xl.start, xl.end, st.1, geom.xlinesLen, crop.1);
    AxisGridEmpty(h.start, h.end, st.2, geom.depth, crop.2);
    CubeEmpty(name, ils, xls, hs);
  }

  /** Inside validated ranges, the crop at every grid row ends strictly inside the cube. */
  lemma GridRowsCropsFit(name: string, geom: Geometry, crop: Triple, st: Triple, il: Range, xl: Range, h: Range)
    requires PositiveTriple(st) && RangesInside(geom, il, xl, h)
    ensures forall p :: p in GridRows(name, geom, crop, st, il, xl, h) ==>
      p.cube == name && p.iline + crop.0 < geom.ilinesLen && p.xline + crop.1 < geom.xlinesLen && p.h + crop.2 < geom.depth
  {
    var ils := AxisGrid(il.start, il.end, st.0, geom.ilinesLen, crop.0);
    var xls := AxisGrid(xl.start, xl.end, st.1, geom.xlinesLen, crop.1);
    var hs := AxisGrid(h.start, h.end, st.2, geom.depth, crop.2);
    AxisGridCropsFit(il.start, il.end, st.0, geom.ilinesLen, crop.0);
    AxisGridCropsFit(xl.start, xl.end, st.1, geom.xlinesLen, crop.1);
    AxisGridCropsFit(h.start, h.end, st.2, geom.depth, crop.2);
    forall p | p in GridRows(name, geom, crop, st, il, xl, h)
      ensures p.cube == name && p.iline + crop.0 < geom.ilinesLen && p.xline + crop.1 < geom.xlinesLen && p.h + crop.2 < geom.depth
    {
      CubeMembers(name, ils, xls, hs, p);
    }
  }

  /**
   * With strides no larger than the crop and range ends inside the cube, every point of the three
   * ranges lies inside the crop of some grid row.
   */
  lemma GridRowsCover(name: string, geom: Geometry, crop: Triple, st: Triple, il: Range, xl: Range, h: Range,
                      i: int, x: int, d: int)
    requires PositiveTriple(st) && st.0 <= crop.0 && st.1 <= crop.1 && st.2 <= crop.2
    requires il.end <= geom.ilinesLen && xl.end <= geom.xlinesLen && h.end <= geom.depth
    requires il.start <= i < il.end && xl.start <= x < xl.end && h.start <= d < h.end
    ensures exists p :: (p in GridRows(name, geom, crop, st, il, xl, h) &&
      p.iline <= i < p.iline + crop.0 && p.xline <= x < p.xline + crop.1 && p.h <= d < p.h + crop.2)
  {
    var ils := AxisGrid(il.start, il.end, st.0, geom.ilinesLen, crop.0);
    var xls := AxisGrid(xl.start, xl.end, st.1, geom.xlinesLen, crop.1);
    var hs := AxisGrid(h.start, h.end, st.2, geom.depth, crop.2);
    AxisGridCovers(il.start, il.end, st.0, geom.ilinesLen, crop.0, i);
    AxisGridCovers(xl.start, xl.end, st.1, geom.xlinesLen, crop.1, x);
    AxisGridCovers(h.start, h.end, st.2, geom.depth, crop.2, d);
    var a :| a in ils && a <= i < a + crop.0;
    var b :| b in xls && b <= x < b + crop.1;
    var c :| c in hs && c <= d < c + crop.2;
    CubeMembers(name, ils, xls, hs, Point(name, a, b, c));
    assert Point(name, a, b, c) in GridRows(name, geom, crop, st, il, xl, h);
  }

  /** The dataset fields `make_grid` reads and sets. */
  class SeismicCubeset {
    var geometries: map<string, Geometry>
    var gridGen: GridCursor?
    var gridIters: Option<int>
    var gridInfo: Option<GridInfo>

    constructor (geometries: map<string, Geometry>)
      ensures this.geometries == geometries && gridGen == null && gridIters == None && gridInfo == None
    {
      this.geometries := geometries;
      gridGen, gridIters, gridInfo := null, None, None;
    }

    /** `make_grid`: validates the ranges, builds the grid and stores its cursor and description. */
    method MakeGrid(cubeName: string, cropShape: Triple, ilinesRange: Range, xlinesRange: Range, hRange: Range,
                    strides: Option<Triple>, batchSize: nat) returns (r: Result<(), GridError>)
      requires batchSize > 0 && PositiveTriple(EffectiveStrides(strides, cropShape))
      modifies this
      ensures geometries == old(geometries)
      ensures r == Err(UnknownCube) <==> cubeName !in geometries
      ensures r == Err(RangeOutsideCube) <==>
        cubeName in geometries && !RangesInside(geometries[cubeName], ilinesRange, xlinesRange, hRange)
      ensures r.Err? ==> gridGen == old(gridGen) && gridIters == old(gridIters) && gridInfo == old(gridInfo)
      ensures cubeName in geometries && RangesInside(geometries[cubeName], ilinesRange, xlinesRange, hRange) ==>
        var rows := GridRows(cubeName, geometries[cubeName], cropShape, EffectiveStrides(strides, cropShape),
                             ilinesRange, xlinesRange, hRange);
        (r == Err(EmptyGrid) <==> |rows| == 0) &&
        (r.Ok? ==>
          gridGen != null && fresh(gridGen) && gridGen.Valid() &&
          gridGen.grid == rows && gridGen.batchSize == batchSize && gridGen.index == 0 &&
          gridIters == Some(GridIters(|rows|, batchSize)) &&
          gridInfo == Some(DescribeGrid(rows, cropShape, cubeName, ilinesRange, xlinesRange, hRange)))
    {
      if cubeName !in geometries {
        return Err(UnknownCube);
      }
      var geom := geometries[cubeName];
      var st := EffectiveStrides(strides, cropShape);
      if !RangesInside(geom, ilinesRange, xlinesRange, hRange) {
        return Err(RangeOutsideCube);
      }
      var grid := BuildRows(cubeName, geom, cropShape, st, ilinesRange, xlinesRange, hRange);
      if |grid| == 0 {
        return Err(EmptyGrid);
      }
      var cursor := new GridCursor(grid, batchSize);
      gridGen := cursor;
      gridIters := Some(GridIters(|grid|, batchSize));
      gridInfo := Some(DescribeGrid(grid, cropShape, cubeName, ilinesRange, xlinesRange, hRange));
      r := Ok(());
    }
  }
}
