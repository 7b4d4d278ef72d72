/**
 * The box-filter running mean of seismiqb/src/utils.py: `compute_running_mean` pads the image
 * symmetrically by k = kernel_size / 2, takes two-dimensional prefix sums, and
 * `_compute_running_mean_jit` reads every (2k+1) x (2k+1) window sum off those prefix sums by
 * inclusion-exclusion and divides it by kernel_size squared. Pixels are integers and the mean a
 * real number.
 */
module RunningMean {

  /** `x` has `h` rows of `w` pixels each. */
  predicate IsMatrix(x: seq<seq<int>>, h: nat, w: nat) {
    |x| == h && forall i :: 0 <= i < h ==> |x[i]| == w
  }

  /**
   * The source index that symmetric padding copies into position `q` (which may lie outside
   * [0, n)): the image is mirrored about its edges, edge pixel included, and mirrored again for
   * as long as the pad is wider than the image.
   */
  function Reflect(q: int, n: nat): (r: nat)
    requires n > 0
    ensures r < n
    decreases if q < 0 then -q else q
  {
    if 0 <= q < n then q
    else if q < 0 then Reflect(-q - 1, n)
    else Reflect(2 * n - 1 - q, n)
  }

  /** Reflection has period 2n. */
  lemma {:induction false} ReflectPeriodic(q: int, n: nat)
    requires n > 0
    ensures Reflect(q + 2 * n, n) == Reflect(q, n)
    decreases if q < 0 then -q else q
  {
    if q < -2 * (n as int) {
      ReflectPeriodic(-q - 1 - 2 * n, n);
    }
  }

  /** `np.pad(x, (k, k), mode='symmetric')`: numpy refuses to pad an empty axis. */
  function Pad(x: seq<seq<int>>, h: nat, w: nat, k: nat): (p: seq<seq<int>>)
    requires IsMatrix(x, h, w) && (k > 0 ==> h > 0 && w > 0)
    ensures IsMatrix(p, h + 2 * k, w + 2 * k)
  {
    seq(h + 2 * k, i requires 0 <= i < h + 2 * k =>
      seq(w + 2 * k, j requires 0 <= j < w + 2 * k =>
        if k == 0 then x[i][j] else x[Reflect(i - k, h)][Reflect(j - k, w)]))
  }

  /** Padding keeps the image in the middle. */
  lemma PadKeepsImage(x: seq<seq<int>>, h: nat, w: nat, k: nat, i: nat, j: nat)
    requires IsMatrix(x, h, w) && (k > 0 ==> h > 0 && w > 0)
    requires i < h && j < w
    ensures Pad(x, h, w, k)[i + k][j + k] == x[i][j]
  {
    assert Reflect(i + k - k, h) == i && Reflect(j + k - k, w) == j;
  }

  /** Sum of `row[c0..c1]`, accumulated left to right as a running sum does. */
  function RowSum(row: seq<int>, c0: nat, c1: nat): int
    requires c0 <= c1 <= |row|
    decreases c1
  {
    if c1 == c0 then 0 else RowSum(row, c0, c1 - 1) + row[c1 - 1]
  }

  /** Sum of the rectangle rows [r0, r1) x columns [c0, c1) of `p`. */
  function RectSum(p: seq<seq<int>>, w: nat, r0: nat, r1: nat, c0: nat, c1: nat): int
    requires IsMatrix(p, |p|, w) && r0 <= r1 <= |p| && c0 <= c1 <= w
    decreases r1
  {
    if r1 == r0 then 0 else RectSum(p, w, r0, r1 - 1, c0, c1) + RowSum(p[r1 - 1], c0, c1)
  }

  /** Sum of column `j` over rows [0, r1) of `q`, accumulated top to bottom. */
  function ColSum(q: seq<seq<int>>, w: nat, j: nat, r1: nat): int
    requires IsMatrix(q, |q|, w) && j < w && r1 <= |q|
  {
    if r1 == 0 then 0 else ColSum(q, w, j, r1 - 1) + q[r1 - 1][j]
  }

  /** `np.cumsum(p, axis=1)`. */
  function RowCumSum(p: seq<seq<int>>, w: nat): (q: seq<seq<int>>)
    requires IsMatrix(p, |p|, w)
    ensures IsMatrix(q, |p|, w)
  {
    seq(|p|, i requires 0 <= i < |p| => seq(w, j requires 0 <= j < w => RowSum(p[i], 0, j + 1)))
  }

  /** `np.cumsum(q, axis=0)`. */
  function ColCumSum(q: seq<seq<int>>, w: nat): (c: seq<seq<int>>)
    requires IsMatrix(q, |q|, w)
    ensures IsMatrix(c, |q|, w)
  {
    seq(|q|, i requires 0 <= i < |q| => seq(w, j requires 0 <= j < w => ColSum(q, w, j, i + 1)))
  }

  /** The two running sums give, at (i, j), the sum of the rectangle from the origin to (i, j) inclusive. */
  lemma {:induction false} CumSumIsPrefixSum(p: seq<seq<int>>, w: nat, i: nat, j: nat)
    requires IsMatrix(p, |p|, w) && i < |p| && j < w
    ensures ColCumSum(RowCumSum(p, w), w)[i][j] == RectSum(p, w, 0, i + 1, 0, j + 1)
  {
    var q := RowCumSum(p, w);
    ColSumIsRectSum(p, w, j, i + 1);
  }

  lemma {:induction false} ColSumIsRectSum(p: seq<seq<int>>, w: nat, j: nat, r1: nat)
    requires IsMatrix(p, |p|, w) && j < w && r1 <= |p|
    ensures ColSum(RowCumSum(p, w), w, j, r1) == RectSum(p, w, 0, r1, 0, j + 1)
  {
    if r1 > 0 {
      ColSumIsRectSum(p, w, j, r1 - 1);
    }
  }

  lemma {:induction false} RowSumSplit(row: seq<int>, c0: nat, c1: nat, c2: nat)
    requires c0 <= c1 <= c2 <= |row|
    ensures RowSum(row, c0, c2) == RowSum(row, c0, c1) + RowSum(row, c1, c2)
    decreases c2
  {
    if c2 > c1 {
      RowSumSplit(row, c0, c1, c2 - 1);
    }
  }

  lemma {:induction false} RectSplitRows(p: seq<seq<int>>, w: nat, r0: nat, r1: nat, r2: nat, c0: nat, c1: nat)
    requires IsMatrix(p, |p|, w) && r0 <= r1 <= r2 <= |p| && c0 <= c1 <= w
    ensures RectSum(p, w, r0, r2, c0, c1) == RectSum(p, w, r0, r1, c0, c1) + RectSum(p, w, r1, r2, c0, c1)
    decreases r2
  {
    if r2 > r1 {
      RectSplitRows(p, w, r0, r1, r2 - 1, c0, c1);
    }
  }

  lemma {:induction false} RectSplitCols(p: seq<seq<int>>, w: nat, r0: nat, r1: nat, c0: nat, c1: nat, c2: nat)
    requires IsMatrix(p, |p|, w) && r0 <= r1 <= |p| && c0 <= c1 <= c2 <= w
    ensures RectSum(p, w, r0, r1, c0, c2) == RectSum(p, w, r0, r1, c0, c1) + RectSum(p, w, r0, r1, c1, c2)
    decreases r1
  {
    if r1 > r0 {
      RectSplitCols(p, w, r0, r1 - 1, c0, c1, c2);
      RowSumSplit(p[r1 - 1], c0, c1, c2);
    }
  }

  /** The sum of any rectangle is four prefix sums combined by inclusion-exclusion. */
  lemma InclusionExclusion(p: seq<seq<int>>, w: nat, r0: nat, r1: nat, c0: nat, c1: nat)
    requires IsMatrix(p, |p|, w) && r0 <= r1 <= |p| && c0 <= c1 <= w
    ensures RectSum(p, w, 0, r1, 0, c1) - RectSum(p, w, 0, r0, 0, c1) - RectSum(p, w, 0, r1, 0, c0)
              + RectSum(p, w, 0, r0, 0, c0) == RectSum(p, w, r0, r1, c0, c1)
  {
    RectSplitRows(p, w, 0, r0, r1, 0, c1);
    RectSplitRows(p, w, 0, r0, r1, 0, c0);
    RectSplitCols(p, w, r0, r1, 0, c0, c1);
  }

  /**
   * The prefix sums framed by a border of zeros, as the jit function's `canvas`: entry (a, b) is
   * the sum of the padded rectangle [0, a) x [0, b). The far border row and column are zero too.
   */
  function CanvasAt(cumsum: seq<seq<int>>, w: nat, a: int, b: int): int
    requires IsMatrix(cumsum, |cumsum|, w)
  {
    if 1 <= a <= |cumsum| && 1 <= b <= w then cumsum[a - 1][b - 1] else 0
  }

  lemma CanvasIsPrefixSum(p: seq<seq<int>>, w: nat, a: nat, b: nat)
    requires IsMatrix(p, |p|, w) && a <= |p| && b <= w
    ensures CanvasAt(ColCumSum(RowCumSum(p, w), w), w, a, b) == RectSum(p, w, 0, a, 0, b)
  {
    if a > 0 && b > 0 {
      CumSumIsPrefixSum(p, w, a - 1, b - 1);
    } else if a > 0 {
      RowSumsEmpty(p, w, a);
    }
  }

  lemma {:induction false} RowSumsEmpty(p: seq<seq<int>>, w: nat, a: nat)
    requires IsMatrix(p, |p|, w) && a <= |p|
    ensures RectSum(p, w, 0, a, 0, 0) == 0
  {
    if a > 0 {
      RowSumsEmpty(p, w, a - 1);
    }
  }

  /** The sum of the (2k+1) x (2k+1) padded window centred on pixel (r, c). */
  function WindowSum(x: seq<seq<int>>, h: nat, w: nat, k: nat, r: nat, c: nat): int
    requires IsMatrix(x, h, w) && (k > 0 ==> h > 0 && w > 0) && r < h && c < w
  {
    RectSum(Pad(x, h, w, k), w + 2 * k, r, r + 2 * k + 1, c, c + 2 * k + 1)
  }

  /** The value the source writes at pixel (r, c): the window sum over kernel_size squared. */
  function MeanAt(x: seq<seq<int>>, h: nat, w: nat, kernelSize: nat, r: nat, c: nat): real
    requires IsMatrix(x, h, w) && kernelSize > 0 && r < h && c < w
    requires kernelSize / 2 > 0 ==> h > 0 && w > 0
  {
    Ratio(WindowSum(x, h, w, kernelSize / 2, r, c), Square(kernelSize))
  }

  /** `float(n) / float(d)`. */
  function Ratio(n: int, d: nat): real
    requires d > 0
  {
    n as real / d as real
  }

  /** `kernel_size ** 2`. */
  function Square(n: nat): (s: nat)
    ensures n > 0 ==> s >= n
  {
    n * n
  }

  /** The mean the jit loop computes for the window of the padded image `p` whose corner is (r, c). */
  function PaddedMean(p: seq<seq<int>>, pw: nat, kernelSize: nat, r: nat, c: nat): real
    requires IsMatrix(p, |p|, pw) && kernelSize > 0
    requires r + 2 * (kernelSize / 2) + 1 <= |p| && c + 2 * (kernelSize / 2) + 1 <= pw
  {
    var k := kernelSize / 2;
    Ratio(RectSum(p, pw, r, r + 2 * k + 1, c, c + 2 * k + 1), Square(kernelSize))
  }

  /** The canvas of the jit function: entry (a, b) is the sum of the rectangle [0, a) x [0, b) of `p`. */
  ghost predicate IsCanvas(canvas: array2<int>, p: seq<seq<int>>, pw: nat)
    reads canvas
  {
    && IsMatrix(p, |p|, pw)
    && canvas.Length0 == |p| + 2 && canvas.Length1 == pw + 2
    && forall a, b :: 0 <= a <= |p| && 0 <= b <= pw ==> canvas[a, b] == RectSum(p, pw, 0, a, 0, b)
  }

  /** One iteration of the inner loop: the window sum read off four canvas entries, over kernel_size squared. */
  method PixelMean(canvas: array2<int>, ghost p: seq<seq<int>>, pw: nat, kernelSize: nat, i: nat, j: nat)
    returns (m: real)
    requires IsCanvas(canvas, p, pw) && kernelSize > 0
    requires kernelSize / 2 <= i && i + kernelSize / 2 < |p| && kernelSize / 2 <= j && j + kernelSize / 2 < pw
    ensures m == PaddedMean(p, pw, kernelSize, i - kernelSize / 2, j - kernelSize / 2)
  {
    var k := kernelSize / 2;
    var d := canvas[i + k + 1, j + k + 1];
    var a := canvas[i - k, j - k];
    var b := canvas[i - k, j + 1 + k];
    var c := canvas[i + 1 + k, j - k];
    InclusionExclusion(p, pw, i - k, i + k + 1, j - k, j + k + 1);
    m := Ratio(d - b - c + a, Square(kernelSize));
  }

  /** The inner loop of the jit function for i = row + k: fills output row `row`. */
  method RunningMeanRow(canvas: array2<int>, ghost p: seq<seq<int>>, result: array2<real>, kernelSize: nat, row: nat)
    requires kernelSize > 0 && IsCanvas(canvas, p, result.Length1 + 2 * (kernelSize / 2))
    requires |p| == result.Length0 + 2 * (kernelSize / 2) && row < result.Length0
    modifies result
    ensures forall c :: 0 <= c < result.Length1 ==>
      result[row, c] == PaddedMean(p, result.Length1 + 2 * (kernelSize / 2), kernelSize, row, c)
    ensures forall r, c :: 0 <= r < result.Length0 && r != row && 0 <= c < result.Length1 ==> result[r, c] == old(result[r, c])
  {
    var k := kernelSize / 2;
    var w := result.Length1;
    var i := row + k;
    for j := k to w + k
      invariant forall c :: 0 <= c < j - k ==> result[row, c] == PaddedMean(p, w + 2 * k, kernelSize, row, c)
      invariant forall r, c :: 0 <= r < result.Length0 && r != row && 0 <= c < w ==> result[r, c] == old(result[r, c])
    {
      var m := PixelMean(canvas, p, w + 2 * k, kernelSize, i, j);
      result[i - k, j - k] := m;
    }
  }

  /** The zero-bordered canvas of the jit function, holding `cumsum` at offset (1, 1). */
  method MakeCanvas(cumsum: seq<seq<int>>, ghost p: seq<seq<int>>, pw: nat) returns (canvas: array2<int>)
    requires IsMatrix(p, |p|, pw) && cumsum == ColCumSum(RowCumSum(p, pw), pw)
    ensures fresh(canvas) && IsCanvas(canvas, p, pw)
  {
    canvas := new int[|cumsum| + 2, pw + 2]((a, b) => CanvasAt(cumsum, pw, a, b));
    forall a, b | 0 <= a <= |p| && 0 <= b <= pw ensures canvas[a, b] == RectSum(p, pw, 0, a, 0, b) {
      assert canvas[a, b] == CanvasAt(cumsum, pw, a, b);
      CanvasIsPrefixSum(p, pw, a, b);
    }
  }

  /** The outer loop of the jit function: fills every output row. */
  method FillRows(canvas: array2<int>, ghost p: seq<seq<int>>, result: array2<real>, kernelSize: nat)
    requires kernelSize > 0 && IsCanvas(canvas, p, result.Length1 + 2 * (kernelSize / 2))
    requires |p| == result.Length0 + 2 * (kernelSize / 2)
    modifies result
    ensures forall r, c :: 0 <= r < result.Length0 && 0 <= c < result.Length1 ==>
      result[r, c] == PaddedMean(p, result.Length1 + 2 * (kernelSize / 2), kernelSize, r, c)
  {
    var k := kernelSize / 2;
    var pw := result.Length1 + 2 * k;
    for i := k to result.Length0 + k
      invariant forall r, c :: 0 <= r < i - k && 0 <= c < result.Length1 ==> result[r, c] == PaddedMean(p, pw, kernelSize, r, c)
    {
      RunningMeanRow(canvas, p, result, kernelSize, i - k);
    }
  }

  /** The body of the jit function, stated over the padded image whose prefix sums it is given. */
  method JitPass(cumsum: seq<seq<int>>, ghost p: seq<seq<int>>, h: nat, w: nat, kernelSize: nat)
    returns (result: array2<real>)
    requires kernelSize > 0 && |p| == h + 2 * (kernelSize / 2) && IsMatrix(p, |p|, w + 2 * (kernelSize / 2))
    requires cumsum == ColCumSum(RowCumSum(p, w + 2 * (kernelSize / 2)), w + 2 * (kernelSize / 2))
    ensures fresh(result) && result.Length0 == h && result.Length1 == w
    ensures forall r, c :: 0 <= r < h && 0 <= c < w ==>
      result[r, c] == PaddedMean(p, w + 2 * (kernelSize / 2), kernelSize, r, c)
  {
    result := new real[h, w]((_, _) => 0.0);
    var canvas := MakeCanvas(cumsum, p, w + 2 * (kernelSize / 2));
    FillRows(canvas, p, result, kernelSize);
  }

  /** The value the source writes is the padded image's window mean. */
  lemma MeanAtIsPaddedMean(x: seq<seq<int>>, h: nat, w: nat, kernelSize: nat, r: nat, c: nat)
    requires IsMatrix(x, h, w) && kernelSize > 0 && r < h && c < w
    requires kernelSize / 2 > 0 ==> h > 0 && w > 0
    ensures MeanAt(x, h, w, kernelSize, r, c) == PaddedMean(Pad(x, h, w, kernelSize / 2), w + 2 * (kernelSize / 2), kernelSize, r, c)
  {
  }

  /**
   * `_compute_running_mean_jit(x, kernel_size, cumsum)` given the prefix sums of the padded image:
   * every output pixel is its window's sum divided by kernel_size squared.
   */
  method RunningMeanJit(x: seq<seq<int>>, h: nat, w: nat, kernelSize: nat, cumsum: seq<seq<int>>)
    returns (result: array2<real>)
    requires IsMatrix(x, h, w) && kernelSize > 0
    requires kernelSize / 2 > 0 ==> h > 0 && w > 0
    requires cumsum == ColCumSum(RowCumSum(Pad(x, h, w, kernelSize / 2), w + 2 * (kernelSize / 2)), w + 2 * (kernelSize / 2))
    ensures fresh(result) && result.Length0 == h && result.Length1 == w
    ensures forall r, c :: 0 <= r < h && 0 <= c < w ==> result[r, c] == MeanAt(x, h, w, kernelSize, r, c)
  {
    result := JitPass(cumsum, Pad(x, h, w, kernelSize / 2), h, w, kernelSize);
    forall r, c | 0 <= r < h && 0 <= c < w ensures result[r, c] == MeanAt(x, h, w, kernelSize, r, c) {
      MeanAtIsPaddedMean(x, h, w, kernelSize, r, c);
    }
  }

  /** `compute_running_mean`: pad, take the two running sums, then run the jit pass. */
  method ComputeRunningMean(x: seq<seq<int>>, h: nat, w: nat, kernelSize: nat) returns (result: array2<real>)
    requires IsMatrix(x, h, w) && kernelSize > 0
    requires kernelSize / 2 > 0 ==> h > 0 && w > 0
    ensures fresh(result) && result.Length0 == h && result.Length1 == w
    ensures forall r, c :: 0 <= r < h && 0 <= c < w ==> result[r, c] == MeanAt(x, h, w, kernelSize, r, c)
  {
    var k := kernelSize / 2;
    var padded := Pad(x, h, w, k);
    var cumsum := ColCumSum(RowCumSum(padded, w + 2 * k), w + 2 * k);
    result := RunningMeanJit(x, h, w, kernelSize, cumsum);
  }

  /** Every pixel of `x` lies in [lo, hi]. */
  predicate InRange(x: seq<seq<int>>, lo: int, hi: int) {
    forall i, j :: 0 <= i < |x| && 0 <= j < |x[i]| ==> lo <= x[i][j] <= hi
  }

  lemma PadInRange(x: seq<seq<int>>, h: nat, w: nat, k: nat, lo: int, hi: int)
    requires IsMatrix(x, h, w) && (k > 0 ==> h > 0 && w > 0) && InRange(x, lo, hi)
    ensures InRange(Pad(x, h, w, k), lo, hi)
  {
    var p := Pad(x, h, w, k);
    forall i, j | 0 <= i < |p| && 0 <= j < |p[i]| ensures lo <= p[i][j] <= hi {
      if k > 0 {
        var a, b := Reflect(i - k, h), Reflect(j - k, w);
        assert p[i][j] == x[a][b];
      }
    }
  }

  lemma {:induction false} RowSumBounds(row: seq<int>, c0: nat, c1: nat, lo: int, hi: int)
    requires c0 <= c1 <= |row| && forall j :: c0 <= j < c1 ==> lo <= row[j] <= hi
    ensures lo * (c1 - c0) <= RowSum(row, c0, c1) <= hi * (c1 - c0)
    decreases c1
  {
    if c1 > c0 {
      RowSumBounds(row, c0, c1 - 1, lo, hi);
      assert lo * (c1 - c0) == lo * (c1 - 1 - c0) + lo;
      assert hi * (c1 - c0) == hi * (c1 - 1 - c0) + hi;
    }
  }

  lemma {:induction false} RectSumBounds(p: seq<seq<int>>, w: nat, r0: nat, r1: nat, c0: nat, c1: nat, lo: int, hi: int)
    requires IsMatrix(p, |p|, w) && r0 <= r1 <= |p| && c0 <= c1 <= w && InRange(p, lo, hi)
    ensures (r1 - r0) * (lo * (c1 - c0)) <= RectSum(p, w, r0, r1, c0, c1) <= (r1 - r0) * (hi * (c1 - c0))
    decreases r1
  {
    if r1 > r0 {
      RectSumBounds(p, w, r0, r1 - 1, c0, c1, lo, hi);
      RowSumBounds(p[r1 - 1], c0, c1, lo, hi);
      var low, high := lo * (c1 - c0), hi * (c1 - c0);
      assert (r1 - r0) * low == (r1 - 1 - r0) * low + low;
      assert (r1 - r0) * high == (r1 - 1 - r0) * high + high;
    }
  }

  /** A square of n x n pixels, each in [lo, hi], sums to between lo * n^2 and hi * n^2. */
  lemma SquareSumBounds(p: seq<seq<int>>, w: nat, r: nat, c: nat, n: nat, lo: int, hi: int)
    requires IsMatrix(p, |p|, w) && r + n <= |p| && c + n <= w && InRange(p, lo, hi)
    ensures lo * Square(n) <= RectSum(p, w, r, r + n, c, c + n) <= hi * Square(n)
  {
    RectSumBounds(p, w, r, r + n, c, c + n, lo, hi);
    ScaleSquare(n, lo);
    ScaleSquare(n, hi);
  }

  lemma ScaleSquare(n: nat, a: int)
    ensures n * (a * n) == a * Square(n)
  {
    assert n * (a * n) == a * (n * n);
  }

  /** The window of pixel (r, c) sums (2k+1)^2 pixels of the image, each in [lo, hi]. */
  lemma WindowSumBounds(x: seq<seq<int>>, h: nat, w: nat, k: nat, r: nat, c: nat, lo: int, hi: int)
    requires IsMatrix(x, h, w) && (k > 0 ==> h > 0 && w > 0) && r < h && c < w && InRange(x, lo, hi)
    ensures lo * Square(2 * k + 1) <= WindowSum(x, h, w, k, r, c) <= hi * Square(2 * k + 1)
  {
    PadInRange(x, h, w, k, lo, hi);
    SquareSumBounds(Pad(x, h, w, k), w + 2 * k, r, c, 2 * k + 1, lo, hi);
  }

  lemma RatioBounds(n: int, d: nat, lo: int, hi: int)
    requires d > 0 && lo * d <= n <= hi * d
    ensures lo as real <= Ratio(n, d) <= hi as real
  {
    assert (lo * d) as real == lo as real * d as real;
    assert (hi * d) as real == hi as real * d as real;
  }

  /**
   * For an odd kernel_size the running mean is a true mean: every output pixel lies between the
   * smallest and the largest input pixel, so a constant image is left unchanged.
   */
  lemma OddKernelMeanInRange(x: seq<seq<int>>, h: nat, w: nat, kernelSize: nat, r: nat, c: nat, lo: int, hi: int)
    requires IsMatrix(x, h, w) && kernelSize % 2 == 1 && r < h && c < w && InRange(x, lo, hi)
    requires kernelSize / 2 > 0 ==> h > 0 && w > 0
    ensures lo as real <= MeanAt(x, h, w, kernelSize, r, c) <= hi as real
  {
    var k := kernelSize / 2;
    assert 2 * k + 1 == kernelSize;
    WindowSumBounds(x, h, w, k, r, c, lo, hi);
    RatioBounds(WindowSum(x, h, w, k, r, c), Square(kernelSize), lo, hi);
  }

  /**
   * For an even kernel_size the window has (kernel_size + 1)^2 pixels but the sum is divided by
   * kernel_size^2: the single-pixel image [[1]] with kernel_size 2 becomes [[9/4]].
   */
  lemma EvenKernelOvershoots()
    ensures MeanAt([[1]], 1, 1, 2, 0, 0) == 9.0 / 4.0
  {
    WindowSumBounds([[1]], 1, 1, 1, 0, 0, 1, 1);
    assert Square(3) == 9 && Square(2) == 4;
  }

  /** The mean with the divisor the window actually covers, (2k+1)^2 pixels. */
  function WindowMean(x: seq<seq<int>>, h: nat, w: nat, kernelSize: nat, r: nat, c: nat): real
    requires IsMatrix(x, h, w) && kernelSize > 0 && r < h && c < w
    requires kernelSize / 2 > 0 ==> h > 0 && w > 0
  {
    Ratio(WindowSum(x, h, w, kernelSize / 2, r, c), Square(2 * (kernelSize / 2) + 1))
  }

  /** Dividing by the window's own size keeps every output within the input range for every kernel size. */
  lemma WindowMeanInRange(x: seq<seq<int>>, h: nat, w: nat, kernelSize: nat, r: nat, c: nat, lo: int, hi: int)
    requires IsMatrix(x, h, w) && kernelSize > 0 && r < h && c < w && InRange(x, lo, hi)
    requires kernelSize / 2 > 0 ==> h > 0 && w > 0
    ensures lo as real <= WindowMean(x, h, w, kernelSize, r, c) <= hi as real
    ensures kernelSize % 2 == 1 ==> WindowMean(x, h, w, kernelSize, r, c) == MeanAt(x, h, w, kernelSize, r, c)
  {
    var k := kernelSize / 2;
    WindowSumBounds(x, h, w, k, r, c, lo, hi);
    RatioBounds(WindowSum(x, h, w, k, r, c), Square(2 * k + 1), lo, hi);
  }
}
