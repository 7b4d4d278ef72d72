/**
 * The deterministic part of `HorizonSampler` in seismiqb/src/utils.py: the bin bookkeeping of its
 * constructor and `generate_points`, which decodes flat row-major bin indices of a d-dimensional
 * histogram into the lower edges of the bins, one coordinate per axis, by repeated floor division
 * by the bin counts of the trailing axes.
 */
module Histogram {
  import opened Basics

  // ---------------------------------------------------------------------------------------------
  // Mixed-radix numbers

  /** Every bin count is positive (a histogram axis has at least two edges). */
  predicate Positive(ls: seq<nat>) {
    forall j :: 0 <= j < |ls| ==> ls[j] > 0
  }

  /** The number of bins of a histogram with bin counts `ls`. */
  function Prod(ls: seq<nat>): (p: nat)
    ensures Positive(ls) ==> p > 0
  {
    if |ls| == 0 then 1 else MulNonneg(ls[0], Prod(ls[1..])); ls[0] * Prod(ls[1..])
  }

  lemma {:induction false} ProdConcat(a: seq<nat>, b: seq<nat>)
    ensures Prod(a + b) == Prod(a) * Prod(b)
  {
    if |a| > 0 {
      assert (a + b)[1..] == a[1..] + b;
      ProdConcat(a[1..], b);
      var h, pa, pb := a[0], Prod(a[1..]), Prod(b);
      MulAssoc(h, pa, pb);
    } else {
      assert a + b == b;
    }
  }

  /** `idx_copy //= divisor` for every divisor in turn. */
  function DivSeq(x: nat, ds: seq<nat>): nat
    requires Positive(ds)
  {
    if |ds| == 0 then x else DivSeq(Quot(x, ds[0]), ds[1..])
  }

  /** Repeated division by the divisors is division by their product. */
  lemma {:induction false} DivSeqIsDivProd(x: nat, ds: seq<nat>)
    requires Positive(ds)
    ensures DivSeq(x, ds) == x / Prod(ds)
  {
    if |ds| > 0 {
      DivSeqIsDivProd(Quot(x, ds[0]), ds[1..]);
      DivDiv(x, ds[0], Prod(ds[1..]));
    }
  }

  /** The bin index along axis j of flat index x: (x div product of the trailing counts) mod count j. */
  function Digit(x: nat, ls: seq<nat>, j: nat): (d: nat)
    requires Positive(ls) && j < |ls|
    ensures d < ls[j]
  {
    Quot(x, Prod(ls[j + 1..])) % ls[j]
  }

  /** The per-axis bin indices of flat index x. */
  function Unravel(x: nat, ls: seq<nat>): (ds: seq<nat>)
    requires Positive(ls)
    ensures |ds| == |ls| && forall j :: 0 <= j < |ls| ==> ds[j] < ls[j]
  {
    seq(|ls|, j requires 0 <= j < |ls| => Digit(x, ls, j))
  }

  /** Per-axis bin indices `ds` as a flat row-major index. */
  function Ravel(ds: seq<nat>, ls: seq<nat>): nat
    requires |ds| == |ls|
  {
    if |ls| == 0 then 0 else ds[0] * Prod(ls[1..]) + Ravel(ds[1..], ls[1..])
  }

  /** Every digit in range: `ds` names a bin. */
  predicate InBins(ds: seq<nat>, ls: seq<nat>) {
    |ds| == |ls| && forall j :: 0 <= j < |ls| ==> ds[j] < ls[j]
  }

  lemma {:induction false} RavelBelowProd(ds: seq<nat>, ls: seq<nat>)
    requires InBins(ds, ls)
    ensures Ravel(ds, ls) < Prod(ls)
  {
    if |ls| > 0 {
      var p, r := Prod(ls[1..]), Ravel(ds[1..], ls[1..]);
      assert InBins(ds[1..], ls[1..]) by {
        forall j | 0 <= j < |ls| - 1 ensures ds[1..][j] < ls[1..][j] {
          assert ds[j + 1] < ls[j + 1];
        }
      }
      RavelBelowProd(ds[1..], ls[1..]);
      assert Ravel(ds, ls) == ds[0] * p + r;
      assert Prod(ls) == ls[0] * p;
      DigitStep(ds[0], ls[0], p, r);
    }
  }

  /** One more leading digit below its count keeps a row-major index below the product. */
  lemma DigitStep(d: int, l: int, p: int, r: int)
    requires 0 <= d < l && 0 <= r < p
    ensures d * p + r < l * p
  {
    MulMono(l, d + 1, p);
    assert (d + 1) * p == d * p + p;
  }

  /** Digits j >= 1 of x only depend on x modulo the product of the counts of axes 1 and on. */
  /** With p == m * l * q: ((x div q) mod l) does not change when x is first reduced modulo p. */
  lemma QuotModOfRemainder(x: nat, m: nat, l: nat, q: nat)
    requires m > 0 && l > 0 && q > 0
    ensures (x / q) % l == ((x % (m * l * q)) / q) % l
  {
    var p := m * l * q;
    MulNonneg(m * l, q);
    var a, b := x / p, x % p;
    assert x == a * p + b;
    var bq, br := b / q, b % q;
    assert b == bq * q + br;
    var k := a * m;
    assert a * p == k * l * q by {
      MulAssoc(a, m * l, q);
      MulAssoc(a, m, l);
    }
    assert x == (k * l + bq) * q + br;
    DivModUnique(x, q, k * l + bq, br);
    var c, d := bq / l, bq % l;
    assert bq == c * l + d;
    assert k * l + bq == (k + c) * l + d;
    DivModUnique(k * l + bq, l, k + c, d);
  }

  /** Digits j >= 1 of x only depend on x modulo the product of the counts of axes 1 and on. */
  lemma DigitOfRemainder(x: nat, ls: seq<nat>, j: nat)
    requires Positive(ls) && 1 <= j < |ls|
    ensures Digit(x, ls, j) == Digit(x % Prod(ls[1..]), ls[1..], j - 1)
  {
    var tail := ls[1..];
    var q := Prod(ls[j + 1..]);
    var m := Prod(ls[1..j]);
    var l := ls[j];
    assert tail[j - 1 + 1..] == ls[j + 1..];
    assert ls[1..] == ls[1..j] + [l] + ls[j + 1..];
    ProdConcat(ls[1..j] + [l], ls[j + 1..]);
    ProdConcat(ls[1..j], [l]);
    assert Prod([l]) == l by { assert [l][1..] == []; }
    assert Prod(tail) == m * l * q;
    QuotModOfRemainder(x, m, l, q);
  }

  /** Recombining the decoded bin indices in row-major order gives back every flat index. */
  lemma {:induction false} RavelUnravel(x: nat, ls: seq<nat>)
    requires Positive(ls) && x < Prod(ls)
    ensures Ravel(Unravel(x, ls), ls) == x
    decreases |ls|
  {
    if |ls| > 0 {
      var p := Prod(ls[1..]);
      var a, b := x / p, x % p;
      assert x == a * p + b;
      if a >= ls[0] {
        MulMono(a, ls[0], p);
      }
      DivModUnique(a, ls[0], 0, a);
      assert Unravel(x, ls)[0] == a;
      forall j | 0 <= j < |ls| - 1 ensures Unravel(x, ls)[1..][j] == Unravel(b, ls[1..])[j] {
        DigitOfRemainder(x, ls, j + 1);
      }
      assert Unravel(x, ls)[1..] == Unravel(b, ls[1..]);
      RavelUnravel(b, ls[1..]);
    }
  }

  /** Decoding the row-major index of a bin gives back its per-axis indices. */
  lemma {:induction false} UnravelRavel(ds: seq<nat>, ls: seq<nat>)
    requires Positive(ls) && InBins(ds, ls)
    ensures Unravel(Ravel(ds, ls), ls) == ds
    decreases |ls|
  {
    if |ls| > 0 {
      var p := Prod(ls[1..]);
      var rest := Ravel(ds[1..], ls[1..]);
      var x := Ravel(ds, ls);
      RavelBelowProd(ds[1..], ls[1..]);
      DivModUnique(x, p, ds[0], rest);
      DivModUnique(ds[0], ls[0], 0, ds[0]);
      UnravelRavel(ds[1..], ls[1..]);
      forall j | 0 <= j < |ls| ensures Unravel(x, ls)[j] == ds[j] {
        if j > 0 {
          DigitOfRemainder(x, ls, j);
        }
      }
    }
  }

  // ---------------------------------------------------------------------------------------------
  // generate_points

  /** The arguments `generate_points` receives from the sampler: one edge list, divisor list and length per axis. */
  predicate PointArgs(edges: seq<seq<real>>, divisors: seq<seq<nat>>, lengths: seq<nat>) {
    && |edges| == |divisors| == |lengths|
    && Positive(lengths)
    && (forall j :: 0 <= j < |lengths| ==> Positive(divisors[j]))
    && (forall j :: 0 <= j < |lengths| ==> lengths[j] <= |edges[j]|)
  }

  /**
   * `generate_points`: row i holds, for each axis j, the edge whose index is the flat index divided
   * in turn by every divisor of the axis and taken modulo the axis length.
   */
  method GeneratePoints(edges: seq<seq<real>>, divisors: seq<seq<nat>>, lengths: seq<nat>, indices: seq<nat>)
    returns (low: array2<real>)
    requires PointArgs(edges, divisors, lengths)
    ensures fresh(low) && low.Length0 == |indices| && low.Length1 == |lengths|
    ensures forall i, j :: 0 <= i < |indices| && 0 <= j < |lengths| ==>
      low[i, j] == edges[j][DivSeq(indices[i], divisors[j]) % lengths[j]]
  {
    low := new real[|indices|, |lengths|]((_, _) => 0.0);
    for i := 0 to |indices|
      invariant forall r, j :: 0 <= r < i && 0 <= j < |lengths| ==>
        low[r, j] == edges[j][DivSeq(indices[r], divisors[j]) % lengths[j]]
    {
      var idx := indices[i];
      for j := 0 to |lengths|
        invariant forall r, c :: 0 <= r < i && 0 <= c < |lengths| ==>
          low[r, c] == edges[c][DivSeq(indices[r], divisors[c]) % lengths[c]]
        invariant forall c :: 0 <= c < j ==> low[i, c] == edges[c][DivSeq(idx, divisors[c]) % lengths[c]]
      {
        var idxCopy := idx;
        var ds := divisors[j];
        for t := 0 to |ds|
          invariant DivSeq(idxCopy, ds[t..]) == DivSeq(idx, ds)
        {
          assert ds[t..][1..] == ds[t + 1..];
          idxCopy := idxCopy / ds[t];
        }
        assert ds[|ds|..] == [];
        low[i, j] := edges[j][idxCopy % lengths[j]];
      }
    }
  }

  // ---------------------------------------------------------------------------------------------
  // HorizonSampler bookkeeping

  /** `len(edge) - 1` for every axis: the bin counts. */
  function LensEdges(edges: seq<seq<real>>): (ls: seq<nat>)
    requires forall j :: 0 <= j < |edges| ==> |edges[j]| >= 2
    ensures |ls| == |edges| && Positive(ls)
    ensures forall j :: 0 <= j < |edges| ==> ls[j] + 1 == |edges[j]|
  {
    seq(|edges|, j requires 0 <= j < |edges| => |edges[j]| - 1)
  }

  /** The divisors of axis i: the bin counts of all later axes. */
  function Divisors(ls: seq<nat>): (ds: seq<seq<nat>>)
    ensures |ds| == |ls|
    ensures Positive(ls) ==> forall i :: 0 <= i < |ls| ==> Positive(ds[i])
  {
    seq(|ls|, i requires 0 <= i < |ls| => ls[i + 1..])
  }

  /** With the sampler's own divisors, `generate_points` picks the lower edge of the decoded bin. */
  lemma SamplerPointIsBinEdge(edges: seq<seq<real>>, idx: nat, j: nat)
    requires forall a :: 0 <= a < |edges| ==> |edges[a]| >= 2
    requires j < |edges|
    ensures var ls := LensEdges(edges);
      PointArgs(edges, Divisors(ls), ls)
      && edges[j][DivSeq(idx, Divisors(ls)[j]) % ls[j]] == edges[j][Unravel(idx, ls)[j]]
  {
    var ls := LensEdges(edges);
    DivSeqIsDivProd(idx, ls[j + 1..]);
  }

  /** `np.diff(edge)[0]` for every axis: the width of the first bin, used for all bins. */
  function ShiftsEdges(edges: seq<seq<real>>): (s: seq<real>)
    requires forall j :: 0 <= j < |edges| ==> |edges[j]| >= 2
    ensures |s| == |edges| && forall j :: 0 <= j < |edges| ==> s[j] == edges[j][1] - edges[j][0]
  {
    seq(|edges|, j requires 0 <= j < |edges| => edges[j][1] - edges[j][0])
  }

  /** The edges of an axis step by the width of its first bin, as `np.histogramdd` lays them out. */
  predicate EvenlySpaced(e: seq<real>)
  {
    |e| >= 2 && forall i :: 0 <= i < |e| - 1 ==> e[i + 1] - e[i] == e[1] - e[0]
  }

  /**
   * The box `sample` draws from on axis j, from `generate_points`' lower edge to that edge plus the
   * shift, is exactly the decoded bin when the axis is evenly spaced.
   */
  lemma SampleBoxIsBin(edges: seq<seq<real>>, idx: nat, j: nat)
    requires forall a :: 0 <= a < |edges| ==> |edges[a]| >= 2
    requires j < |edges| && EvenlySpaced(edges[j])
    ensures var ls := LensEdges(edges);
      var u := Unravel(idx, ls)[j];
      var low := edges[j][DivSeq(idx, Divisors(ls)[j]) % ls[j]];
      PointArgs(edges, Divisors(ls), ls)
      && low == edges[j][u] && low + ShiftsEdges(edges)[j] == edges[j][u + 1]
  {
    var ls := LensEdges(edges);
    SamplerPointIsBinEdge(edges, idx, j);
    var u := Unravel(idx, ls)[j];
    assert u < ls[j] && ls[j] + 1 == |edges[j]|;
    assert edges[j][u + 1] - edges[j][u] == edges[j][1] - edges[j][0];
  }

  /** On unevenly spaced edges the box can miss part of the bin: bin [1, 3) is sampled from [1, 2). */
  lemma UnevenBoxShorterThanBin()
    ensures var edges := [[0.0, 1.0, 3.0]];
      var ls := LensEdges(edges);
      PointArgs(edges, Divisors(ls), ls)
      && edges[0][DivSeq(1, Divisors(ls)[0]) % ls[0]] == 1.0
      && 1.0 + ShiftsEdges(edges)[0] == 2.0 && edges[0][2] == 3.0
  {
    var edges := [[0.0, 1.0, 3.0]];
    var ls := LensEdges(edges);
    assert ls == [2];
    assert ls[1..] == [];
    assert Divisors(ls) == [[]];
  }

  function Sum(bins: seq<nat>): nat {
    if |bins| == 0 then 0 else Sum(bins[..|bins| - 1]) + bins[|bins| - 1]
  }

  /** The flat indices of the non-empty bins, in increasing order. */
  function NonzeroIdx(bins: seq<nat>): (ix: seq<nat>)
    ensures forall a, b :: 0 <= a < b < |ix| ==> ix[a] < ix[b]
    ensures forall a :: 0 <= a < |ix| ==> ix[a] < |bins| && bins[ix[a]] != 0
    ensures forall i :: 0 <= i < |bins| && bins[i] != 0 ==> i in ix
  {
    if |bins| == 0 then []
    else
      var init := NonzeroIdx(bins[..|bins| - 1]);
      if bins[|bins| - 1] != 0 then init + [|bins| - 1] else init
  }

  /** `bins / np.sum(bins)` at the kept indices. */
  function NonzeroProbs(bins: seq<nat>, ix: seq<nat>): (ps: seq<real>)
    requires Sum(bins) > 0 && forall a :: 0 <= a < |ix| ==> ix[a] < |bins|
    ensures |ps| == |ix|
  {
    seq(|ix|, a requires 0 <= a < |ix| => bins[ix[a]] as real / Sum(bins) as real)
  }

  function RealSum(ps: seq<real>): real {
    if |ps| == 0 then 0.0 else RealSum(ps[..|ps| - 1]) + ps[|ps| - 1]
  }

  /** Summing the kept bins misses nothing: the zero bins add nothing. */
  lemma {:induction false} NonzeroSum(bins: seq<nat>)
    ensures Sum(bins) == SumAt(bins, NonzeroIdx(bins))
  {
    if |bins| > 0 {
      var init := bins[..|bins| - 1];
      NonzeroSum(init);
      SumAtPrefix(bins, NonzeroIdx(init));
      if bins[|bins| - 1] != 0 {
        SumAtSnoc(bins, NonzeroIdx(init), |bins| - 1);
      }
    }
  }

  /** The sum of `bins` at the positions `ix`. */
  function SumAt(bins: seq<nat>, ix: seq<nat>): nat
    requires forall a :: 0 <= a < |ix| ==> ix[a] < |bins|
  {
    if |ix| == 0 then 0 else SumAt(bins, ix[..|ix| - 1]) + bins[ix[|ix| - 1]]
  }

  lemma {:induction false} SumAtPrefix(bins: seq<nat>, ix: seq<nat>)
    requires |bins| > 0 && forall a :: 0 <= a < |ix| ==> ix[a] < |bins| - 1
    ensures SumAt(bins, ix) == SumAt(bins[..|bins| - 1], ix)
  {
    if |ix| > 0 {
      SumAtPrefix(bins, ix[..|ix| - 1]);
    }
  }

  lemma SumAtSnoc(bins: seq<nat>, ix: seq<nat>, i: nat)
    requires i < |bins| && forall a :: 0 <= a < |ix| ==> ix[a] < |bins|
    ensures SumAt(bins, ix + [i]) == SumAt(bins, ix) + bins[i]
  {
    assert (ix + [i])[..|ix|] == ix;
  }

  lemma {:induction false} ProbsSum(bins: seq<nat>, ix: seq<nat>)
    requires Sum(bins) > 0 && forall a :: 0 <= a < |ix| ==> ix[a] < |bins|
    ensures RealSum(NonzeroProbs(bins, ix)) == SumAt(bins, ix) as real / Sum(bins) as real
  {
    if |ix| > 0 {
      var init := ix[..|ix| - 1];
      ProbsSum(bins, init);
      assert NonzeroProbs(bins, ix)[..|ix| - 1] == NonzeroProbs(bins, init);
      DivAdd(SumAt(bins, init) as real, bins[ix[|ix| - 1]] as real, Sum(bins) as real);
    }
  }

  lemma DivAdd(a: real, b: real, s: real)
    requires s > 0.0
    ensures a / s + b / s == (a + b) / s
  {
  }

  lemma DivSelf(s: real)
    requires s > 0.0
    ensures s / s == 1.0
  {
  }

  lemma DivPos(a: real, s: real)
    requires a > 0.0 && s > 0.0
    ensures a / s > 0.0
  {
  }

  /** The kept probabilities are positive and add up to one: they form a distribution over the kept bins. */
  lemma NonzeroProbsDistribution(bins: seq<nat>)
    requires Sum(bins) > 0
    ensures var ps := NonzeroProbs(bins, NonzeroIdx(bins));
      RealSum(ps) == 1.0 && forall a :: 0 <= a < |ps| ==> ps[a] > 0.0
  {
    var ix := NonzeroIdx(bins);
    var total := Sum(bins) as real;
    NonzeroSum(bins);
    ProbsSum(bins, ix);
    DivSelf(total);
    forall a | 0 <= a < |ix| ensures NonzeroProbs(bins, ix)[a] > 0.0 {
      DivPos(bins[ix[a]] as real, total);
    }
  }

  /** The bookkeeping `HorizonSampler.__init__` keeps; the random state is not part of the model. */
  class HorizonSampler {
    var nonzeroProbsIdx: seq<nat>
    var nonzeroProbs: seq<real>
    var edges: seq<seq<real>>
    var lensEdges: seq<nat>
    var divisors: seq<seq<nat>>
    var shiftsEdges: seq<real>

    /** `bins` is the histogram's count array flattened in row-major order. */
    constructor (bins: seq<nat>, edges: seq<seq<real>>)
      requires Sum(bins) > 0
      requires forall j :: 0 <= j < |edges| ==> |edges[j]| >= 2
      requires |bins| == Prod(LensEdges(edges))
      ensures nonzeroProbsIdx == NonzeroIdx(bins)
      ensures forall a :: 0 <= a < |nonzeroProbsIdx| ==> nonzeroProbsIdx[a] < Prod(lensEdges)
      ensures nonzeroProbs == NonzeroProbs(bins, NonzeroIdx(bins))
      ensures this.edges == edges && lensEdges == LensEdges(edges)
      ensures divisors == Divisors(LensEdges(edges)) && shiftsEdges == ShiftsEdges(edges)
    {
      nonzeroProbsIdx := NonzeroIdx(bins);
      nonzeroProbs := NonzeroProbs(bins, NonzeroIdx(bins));
      this.edges := edges;
      lensEdges := LensEdges(edges);
      divisors := Divisors(LensEdges(edges));
      shiftsEdges := ShiftsEdges(edges);
    }
  }
}
