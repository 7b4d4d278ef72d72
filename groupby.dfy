/**
 * Run-collapsing group-by over the first two columns (`groupby_mean`, `groupby_min` and
 * `groupby_max` in seismiqb/src/utils.py). Each row of the `(N, 3)` input is an
 * (iline, xline, value) triple; the values are modelled as integers, and the mean as a real.
 */
module GroupBy {

  datatype Row = Row(il: int, xl: int, v: int)

  datatype MeanRow = MeanRow(il: int, xl: int, mean: real)

  predicate SameKey(a: Row, b: Row) {
    a.il == b.il && a.xl == b.xl
  }

  /** No two adjacent rows share their first two columns. */
  predicate NoAdjacentRepeats(rows: seq<Row>) {
    forall k :: 0 < k < |rows| ==> !SameKey(rows[k - 1], rows[k])
  }

  /** The maximal runs of adjacent rows with equal keys, in input order. */
  function Groups(rows: seq<Row>): (gs: seq<seq<Row>>)
    ensures |gs| <= |rows|
    ensures |rows| > 0 ==> |gs| > 0
    ensures forall k :: 0 <= k < |gs| ==> |gs[k]| > 0
  {
    if |rows| == 0 then []
    else
      var gs := Groups(rows[..|rows| - 1]);
      var r := rows[|rows| - 1];
      if |rows| > 1 && SameKey(rows[|rows| - 2], r) then gs[..|gs| - 1] + [gs[|gs| - 1] + [r]]
      else gs + [[r]]
  }

  /** How the runs grow when one row is appended. */
  lemma GroupsSnoc(rows: seq<Row>, r: Row)
    ensures Groups(rows + [r]) ==
      if |rows| > 0 && SameKey(rows[|rows| - 1], r)
      then Groups(rows)[..|Groups(rows)| - 1] + [Groups(rows)[|Groups(rows)| - 1] + [r]]
      else Groups(rows) + [[r]]
  {
    assert (rows + [r])[..|rows|] == rows;
  }

  /** One step of the left-to-right pass: how the runs of a prefix grow by the next row. */
  lemma GroupsStep(rows: seq<Row>, i: nat)
    requires 0 < i < |rows|
    ensures var gs, next := Groups(rows[..i]), Groups(rows[..i + 1]);
      if SameKey(rows[i - 1], rows[i])
      then |next| == |gs| && (forall k :: 0 <= k < |gs| - 1 ==> next[k] == gs[k])
        && next[|gs| - 1] == gs[|gs| - 1] + [rows[i]]
      else next == gs + [[rows[i]]]
  {
    assert rows[..i + 1] == rows[..i] + [rows[i]];
    GroupsSnoc(rows[..i], rows[i]);
  }

  function Concat(gs: seq<seq<Row>>): seq<Row> {
    if |gs| == 0 then [] else Concat(gs[..|gs| - 1]) + gs[|gs| - 1]
  }

  lemma ConcatSnoc(gs: seq<seq<Row>>, g: seq<Row>)
    ensures Concat(gs + [g]) == Concat(gs) + g
  {
    assert (gs + [g])[..|gs|] == gs;
  }

  /** Concatenating the runs gives back the input. */
  lemma {:induction false} GroupsConcat(rows: seq<Row>)
    ensures Concat(Groups(rows)) == rows
  {
    if |rows| > 0 {
      var init, r := rows[..|rows| - 1], rows[|rows| - 1];
      assert rows == init + [r];
      GroupsSnoc(init, r);
      GroupsConcat(init);
      var gs := Groups(init);
      if |init| > 0 && SameKey(init[|init| - 1], r) {
        var front, last := gs[..|gs| - 1], gs[|gs| - 1];
        assert gs == front + [last];
        assert Groups(rows) == front + [last + [r]];
        ConcatSnoc(front, last);
        ConcatSnoc(front, last + [r]);
        calc {
          Concat(Groups(rows));
          Concat(front) + (last + [r]);
          (Concat(front) + last) + [r];
          init + [r];
        }
      } else {
        assert Groups(rows) == gs + [[r]];
        ConcatSnoc(gs, [r]);
        assert Concat(Groups(rows)) == init + [r];
      }
    } else {
      assert Groups(rows) == [];
    }
  }

  /** Every row of a run has the key of the run's first row. */
  predicate UniformKeys(gs: seq<seq<Row>>)
    requires forall k :: 0 <= k < |gs| ==> |gs[k]| > 0
  {
    forall k, j :: 0 <= k < |gs| && 0 <= j < |gs[k]| ==> SameKey(gs[k][j], gs[k][0])
  }

  /** Runs are maximal: the last row of a run and the first row of the next have different keys. */
  predicate Maximal(gs: seq<seq<Row>>)
    requires forall k :: 0 <= k < |gs| ==> |gs[k]| > 0
  {
    forall k :: 0 < k < |gs| ==> !SameKey(gs[k - 1][|gs[k - 1]| - 1], gs[k][0])
  }

  /** The last run ends with the last row. */
  lemma {:induction false} GroupsLastRow(rows: seq<Row>)
    requires |rows| > 0
    ensures var gs := Groups(rows); gs[|gs| - 1][|gs[|gs| - 1]| - 1] == rows[|rows| - 1]
  {
    var init, r := rows[..|rows| - 1], rows[|rows| - 1];
    assert rows == init + [r];
    GroupsSnoc(init, r);
    var gs := Groups(init);
    if |init| > 0 && SameKey(init[|init| - 1], r) {
      var last := gs[|gs| - 1] + [r];
      assert Groups(rows) == gs[..|gs| - 1] + [last];
      assert last[|last| - 1] == r;
    } else {
      assert Groups(rows) == gs + [[r]];
    }
  }

  /** Growing the last run by a row with the key of its last row keeps the keys uniform. */
  lemma UniformGrowLast(gs: seq<seq<Row>>, r: Row)
    requires |gs| > 0 && forall k :: 0 <= k < |gs| ==> |gs[k]| > 0
    requires UniformKeys(gs) && SameKey(gs[|gs| - 1][|gs[|gs| - 1]| - 1], r)
    ensures var gs' := gs[..|gs| - 1] + [gs[|gs| - 1] + [r]];
      (forall k :: 0 <= k < |gs'| ==> |gs'[k]| > 0) && UniformKeys(gs')
  {
    var n := |gs|;
    var last := gs[n - 1];
    var gs' := gs[..n - 1] + [last + [r]];
    assert SameKey(last[|last| - 1], last[0]);
    forall k, j | 0 <= k < |gs'| && 0 <= j < |gs'[k]| ensures SameKey(gs'[k][j], gs'[k][0]) {
      if k < n - 1 {
        assert gs'[k] == gs[k];
      } else if j < |last| {
        assert gs'[k][j] == last[j] && gs'[k][0] == last[0];
      } else {
        assert gs'[k][j] == r && gs'[k][0] == last[0];
      }
    }
  }

  /** A new single-row run keeps the keys uniform. */
  lemma UniformNewRun(gs: seq<seq<Row>>, r: Row)
    requires forall k :: 0 <= k < |gs| ==> |gs[k]| > 0
    requires UniformKeys(gs)
    ensures var gs' := gs + [[r]];
      (forall k :: 0 <= k < |gs'| ==> |gs'[k]| > 0) && UniformKeys(gs')
  {
    var gs' := gs + [[r]];
    forall k, j | 0 <= k < |gs'| && 0 <= j < |gs'[k]| ensures SameKey(gs'[k][j], gs'[k][0]) {
      if k < |gs| {
        assert gs'[k] == gs[k];
      }
    }
  }

  /** Every row of a run has the key of the run's first row. */
  lemma {:induction false} GroupsUniform(rows: seq<Row>)
    ensures UniformKeys(Groups(rows))
  {
    if |rows| > 0 {
      var init, r := rows[..|rows| - 1], rows[|rows| - 1];
      assert rows == init + [r];
      GroupsSnoc(init, r);
      GroupsUniform(init);
      var gs := Groups(init);
      if |init| > 0 && SameKey(init[|init| - 1], r) {
        GroupsLastRow(init);
        UniformGrowLast(gs, r);
      } else {
        UniformNewRun(gs, r);
      }
    }
  }

  /** Growing the last run keeps the runs maximal. */
  lemma MaximalGrowLast(gs: seq<seq<Row>>, r: Row)
    requires |gs| > 0 && forall k :: 0 <= k < |gs| ==> |gs[k]| > 0
    requires Maximal(gs)
    ensures var gs' := gs[..|gs| - 1] + [gs[|gs| - 1] + [r]];
      (forall k :: 0 <= k < |gs'| ==> |gs'[k]| > 0) && Maximal(gs')
  {
    var n := |gs|;
    var gs' := gs[..n - 1] + [gs[n - 1] + [r]];
    forall k | 0 < k < n ensures !SameKey(gs'[k - 1][|gs'[k - 1]| - 1], gs'[k][0]) {
      assert gs'[k - 1] == gs[k - 1];
      assert gs'[k][0] == gs[k][0];
    }
  }

  /** A new run whose key differs from the last row keeps the runs maximal. */
  lemma MaximalNewRun(gs: seq<seq<Row>>, r: Row)
    requires forall k :: 0 <= k < |gs| ==> |gs[k]| > 0
    requires Maximal(gs)
    requires |gs| > 0 ==> !SameKey(gs[|gs| - 1][|gs[|gs| - 1]| - 1], r)
    ensures var gs' := gs + [[r]];
      (forall k :: 0 <= k < |gs'| ==> |gs'[k]| > 0) && Maximal(gs')
  {
    var gs' := gs + [[r]];
    forall k | 0 < k < |gs'| ensures !SameKey(gs'[k - 1][|gs'[k - 1]| - 1], gs'[k][0]) {
      assert gs'[k - 1] == gs[k - 1];
    }
  }

  /** Runs are maximal: adjacent runs have different keys where they meet. */
  lemma {:induction false} GroupsMaximal(rows: seq<Row>)
    ensures Maximal(Groups(rows))
  {
    if |rows| > 0 {
      var init, r := rows[..|rows| - 1], rows[|rows| - 1];
      assert rows == init + [r];
      GroupsSnoc(init, r);
      GroupsMaximal(init);
      var gs := Groups(init);
      if |init| > 0 && SameKey(init[|init| - 1], r) {
        MaximalGrowLast(gs, r);
      } else {
        if |init| > 0 {
          GroupsLastRow(init);
        }
        MaximalNewRun(gs, r);
      }
    }
  }

  /** When no two adjacent rows share a key, every row is a run of its own. */
  lemma {:induction false} GroupsOfDistinct(rows: seq<Row>)
    requires NoAdjacentRepeats(rows)
    ensures |Groups(rows)| == |rows|
    ensures forall k :: 0 <= k < |rows| ==> Groups(rows)[k] == [rows[k]]
  {
    if |rows| > 0 {
      var init, r := rows[..|rows| - 1], rows[|rows| - 1];
      assert rows == init + [r];
      GroupsSnoc(init, r);
      GroupsOfDistinct(init);
    }
  }

  function MinOf(g: seq<Row>): int
    requires |g| > 0
  {
    if |g| == 1 then g[0].v
    else var m := MinOf(g[..|g| - 1]); if g[|g| - 1].v < m then g[|g| - 1].v else m
  }

  function MaxOf(g: seq<Row>): int
    requires |g| > 0
  {
    if |g| == 1 then g[0].v
    else var m := MaxOf(g[..|g| - 1]); if g[|g| - 1].v > m then g[|g| - 1].v else m
  }

  function SumOf(g: seq<Row>): int {
    if |g| == 0 then 0 else SumOf(g[..|g| - 1]) + g[|g| - 1].v
  }

  lemma MinMaxSumSnoc(g: seq<Row>, r: Row)
    requires |g| > 0
    ensures MinOf(g + [r]) == if r.v < MinOf(g) then r.v else MinOf(g)
    ensures MaxOf(g + [r]) == if r.v > MaxOf(g) then r.v else MaxOf(g)
    ensures SumOf(g + [r]) == SumOf(g) + r.v
    ensures (g + [r])[0] == g[0]
  {
    assert (g + [r])[..|g|] == g;
  }

  /** The minimum of a run is one of its values and no value is below it. */
  lemma {:induction false} MinOfIsMin(g: seq<Row>)
    requires |g| > 0
    ensures exists j :: 0 <= j < |g| && g[j].v == MinOf(g)
    ensures forall j :: 0 <= j < |g| ==> MinOf(g) <= g[j].v
  {
    if |g| == 1 {
      assert g[0].v == MinOf(g);
    } else {
      var init := g[..|g| - 1];
      MinOfIsMin(init);
      var j :| 0 <= j < |init| && init[j].v == MinOf(init);
      if g[|g| - 1].v < MinOf(init) {
        assert g[|g| - 1].v == MinOf(g);
      } else {
        assert g[j].v == MinOf(g);
      }
    }
  }

  /** The maximum of a run is one of its values and no value is above it. */
  lemma {:induction false} MaxOfIsMax(g: seq<Row>)
    requires |g| > 0
    ensures exists j :: 0 <= j < |g| && g[j].v == MaxOf(g)
    ensures forall j :: 0 <= j < |g| ==> g[j].v <= MaxOf(g)
  {
    if |g| == 1 {
      assert g[0].v == MaxOf(g);
    } else {
      var init := g[..|g| - 1];
      MaxOfIsMax(init);
      var j :| 0 <= j < |init| && init[j].v == MaxOf(init);
      if g[|g| - 1].v > MaxOf(init) {
        assert g[|g| - 1].v == MaxOf(g);
      } else {
        assert g[j].v == MaxOf(g);
      }
    }
  }

  function MinRow(g: seq<Row>): Row
    requires |g| > 0
  {
    Row(g[0].il, g[0].xl, MinOf(g))
  }

  function MaxRow(g: seq<Row>): Row
    requires |g| > 0
  {
    Row(g[0].il, g[0].xl, MaxOf(g))
  }

  function MeanRowOf(g: seq<Row>): MeanRow
    requires |g| > 0
  {
    MeanRow(g[0].il, g[0].xl, SumOf(g) as real / |g| as real)
  }

  /** One output row per run: the run's key and the run's minimum. */
  function MinRows(gs: seq<seq<Row>>): (out: seq<Row>)
    requires forall k :: 0 <= k < |gs| ==> |gs[k]| > 0
    ensures |out| == |gs|
  {
    seq(|gs|, k requires 0 <= k < |gs| => MinRow(gs[k]))
  }

  /** One output row per run: the run's key and the run's maximum. */
  function MaxRows(gs: seq<seq<Row>>): (out: seq<Row>)
    requires forall k :: 0 <= k < |gs| ==> |gs[k]| > 0
    ensures |out| == |gs|
  {
    seq(|gs|, k requires 0 <= k < |gs| => MaxRow(gs[k]))
  }

  /** One output row per run: the run's key and the run's sum divided by its length. */
  function MeanRows(gs: seq<seq<Row>>): (out: seq<MeanRow>)
    requires forall k :: 0 <= k < |gs| ==> |gs[k]| > 0
    ensures |out| == |gs|
  {
    seq(|gs|, k requires 0 <= k < |gs| => MeanRowOf(gs[k]))
  }

  /** Collapsing runs leaves no adjacent rows with equal keys, so a second pass changes nothing. */
  lemma CollapsedHasNoRepeats(rows: seq<Row>)
    ensures NoAdjacentRepeats(MinRows(Groups(rows)))
    ensures NoAdjacentRepeats(MaxRows(Groups(rows)))
  {
    GroupsUniform(rows);
    GroupsMaximal(rows);
    var gs := Groups(rows);
    forall k | 0 < k < |gs|
      ensures !SameKey(MinRows(gs)[k - 1], MinRows(gs)[k]) && !SameKey(MaxRows(gs)[k - 1], MaxRows(gs)[k])
    {
      assert SameKey(gs[k - 1][|gs[k - 1]| - 1], gs[k - 1][0]);
    }
  }

  /** On input without adjacent repeated keys, min- and max-groupby return the input unchanged. */
  lemma CollapseDistinctIsIdentity(rows: seq<Row>)
    requires NoAdjacentRepeats(rows)
    ensures MinRows(Groups(rows)) == rows
    ensures MaxRows(Groups(rows)) == rows
  {
    GroupsOfDistinct(rows);
    var gs := Groups(rows);
    forall k | 0 <= k < |rows| ensures MinRows(gs)[k] == rows[k] && MaxRows(gs)[k] == rows[k] {
      assert gs[k] == [rows[k]];
    }
  }

  /** On input without adjacent repeated keys, mean-groupby returns every value unchanged. */
  lemma MeanOfDistinct(rows: seq<Row>)
    requires NoAdjacentRepeats(rows)
    ensures |MeanRows(Groups(rows))| == |rows|
    ensures forall k :: 0 <= k < |rows| ==>
      MeanRows(Groups(rows))[k] == MeanRow(rows[k].il, rows[k].xl, rows[k].v as real)
  {
    GroupsOfDistinct(rows);
    var gs := Groups(rows);
    forall k | 0 <= k < |rows| ensures MeanRows(gs)[k] == MeanRow(rows[k].il, rows[k].xl, rows[k].v as real) {
      assert gs[k] == [rows[k]];
      assert gs[k][..0] == [];
      assert SumOf(gs[k]) == rows[k].v;
    }
  }

  /** Collapsing twice is the same as collapsing once. */
  lemma CollapseIdempotent(rows: seq<Row>)
    ensures MinRows(Groups(MinRows(Groups(rows)))) == MinRows(Groups(rows))
    ensures MaxRows(Groups(MaxRows(Groups(rows)))) == MaxRows(Groups(rows))
  {
    CollapsedHasNoRepeats(rows);
    CollapseDistinctIsIdentity(MinRows(Groups(rows)));
    CollapseDistinctIsIdentity(MaxRows(Groups(rows)));
  }

  /**
   * The state of the pass after reading `rows[..i]`: `out` holds one row for every finished run,
   * the key `(il, xl)` is that of the open run (and of the last row read), and `acc` is the open
   * run's minimum.
   */
  ghost predicate MinPassState(rows: seq<Row>, i: nat, out: seq<Row>, il: int, xl: int, acc: int)
    requires 0 < i <= |rows|
  {
    var gs := Groups(rows[..i]);
    && |gs| == |out| + 1
    && (forall k :: 0 <= k < |out| ==> out[k] == MinRow(gs[k]))
    && il == rows[i - 1].il && xl == rows[i - 1].xl
    && il == gs[|out|][0].il && xl == gs[|out|][0].xl && acc == MinOf(gs[|out|])
  }

  lemma MinPassStep(rows: seq<Row>, i: nat, out: seq<Row>, il: int, xl: int, acc: int)
    requires 0 < i < |rows| && MinPassState(rows, i, out, il, xl, acc)
    ensures var r := rows[i];
      if il == r.il && xl == r.xl then MinPassState(rows, i + 1, out, il, xl, if r.v < acc then r.v else acc)
      else MinPassState(rows, i + 1, out + [Row(il, xl, acc)], r.il, r.xl, r.v)
  {
    GroupsStep(rows, i);
    var gs, next := Groups(rows[..i]), Groups(rows[..i + 1]);
    if il == rows[i].il && xl == rows[i].xl {
      MinMaxSumSnoc(gs[|out|], rows[i]);
    } else {
      var out' := out + [Row(il, xl, acc)];
      forall k | 0 <= k < |out'| ensures out'[k] == MinRow(next[k]) {
        assert next[k] == gs[k];
      }
    }
  }

  /** The same state for the maximum. */
  ghost predicate MaxPassState(rows: seq<Row>, i: nat, out: seq<Row>, il: int, xl: int, acc: int)
    requires 0 < i <= |rows|
  {
    var gs := Groups(rows[..i]);
    && |gs| == |out| + 1
    && (forall k :: 0 <= k < |out| ==> out[k] == MaxRow(gs[k]))
    && il == rows[i - 1].il && xl == rows[i - 1].xl
    && il == gs[|out|][0].il && xl == gs[|out|][0].xl && acc == MaxOf(gs[|out|])
  }

  lemma MaxPassStep(rows: seq<Row>, i: nat, out: seq<Row>, il: int, xl: int, acc: int)
    requires 0 < i < |rows| && MaxPassState(rows, i, out, il, xl, acc)
    ensures var r := rows[i];
      if il == r.il && xl == r.xl then MaxPassState(rows, i + 1, out, il, xl, if r.v > acc then r.v else acc)
      else MaxPassState(rows, i + 1, out + [Row(il, xl, acc)], r.il, r.xl, r.v)
  {
    GroupsStep(rows, i);
    var gs, next := Groups(rows[..i]), Groups(rows[..i + 1]);
    if il == rows[i].il && xl == rows[i].xl {
      MinMaxSumSnoc(gs[|out|], rows[i]);
    } else {
      var out' := out + [Row(il, xl, acc)];
      forall k | 0 <= k < |out'| ensures out'[k] == MaxRow(next[k]) {
        assert next[k] == gs[k];
      }
    }
  }

  /** The same state for the mean: `sum` and `count` are the open run's sum and length. */
  ghost predicate MeanPassState(rows: seq<Row>, i: nat, out: seq<MeanRow>, il: int, xl: int, sum: int, count: int)
    requires 0 < i <= |rows|
  {
    var gs := Groups(rows[..i]);
    && |gs| == |out| + 1
    && (forall k :: 0 <= k < |out| ==> out[k] == MeanRowOf(gs[k]))
    && il == rows[i - 1].il && xl == rows[i - 1].xl
    && il == gs[|out|][0].il && xl == gs[|out|][0].xl
    && sum == SumOf(gs[|out|]) && count == |gs[|out|]|
  }

  /** A row with the open run's key extends that run. */
  lemma MeanPassExtend(rows: seq<Row>, i: nat, out: seq<MeanRow>, il: int, xl: int, sum: int, count: int)
    requires 0 < i < |rows| && MeanPassState(rows, i, out, il, xl, sum, count)
    requires il == rows[i].il && xl == rows[i].xl
    ensures MeanPassState(rows, i + 1, out, il, xl, sum + rows[i].v, count + 1)
  {
    GroupsStep(rows, i);
    MinMaxSumSnoc(Groups(rows[..i])[|out|], rows[i]);
  }

  /** A row with a new key closes the open run, writing its mean, and opens a run of its own. */
  lemma MeanPassClose(rows: seq<Row>, i: nat, out: seq<MeanRow>, il: int, xl: int, sum: int, count: int)
    requires 0 < i < |rows| && MeanPassState(rows, i, out, il, xl, sum, count)
    requires !(il == rows[i].il && xl == rows[i].xl)
    ensures MeanPassState(rows, i + 1, out + [MeanRow(il, xl, sum as real / count as real)], rows[i].il, rows[i].xl, rows[i].v, 1)
  {
    GroupsStep(rows, i);
    var gs, next := Groups(rows[..i]), Groups(rows[..i + 1]);
    var last := gs[|out|];
    assert MeanRowOf(last) == MeanRow(il, xl, sum as real / count as real);
    var out' := out + [MeanRowOf(last)];
    forall k | 0 <= k < |out'| ensures out'[k] == MeanRowOf(next[k]) {
      assert next[k] == gs[k];
    }
    assert [rows[i]][..0] == [];
    assert next[|out'|] == [rows[i]];
    assert SumOf([rows[i]]) == rows[i].v;
    assert out' == out + [MeanRow(il, xl, sum as real / count as real)];
  }

  lemma MeanPassStep(rows: seq<Row>, i: nat, out: seq<MeanRow>, il: int, xl: int, sum: int, count: int)
    requires 0 < i < |rows| && MeanPassState(rows, i, out, il, xl, sum, count)
    ensures var r := rows[i];
      if il == r.il && xl == r.xl then MeanPassState(rows, i + 1, out, il, xl, sum + r.v, count + 1)
      else MeanPassState(rows, i + 1, out + [MeanRow(il, xl, sum as real / count as real)], r.il, r.xl, r.v, 1)
  {
    if il == rows[i].il && xl == rows[i].xl {
      MeanPassExtend(rows, i, out, il, xl, sum, count);
    } else {
      MeanPassClose(rows, i, out, il, xl, sum, count);
    }
  }

  /** The state before the loop: the first row opens the first run. */
  lemma PassStart(rows: seq<Row>)
    requires |rows| > 0
    ensures MinPassState(rows, 1, [], rows[0].il, rows[0].xl, rows[0].v)
    ensures MaxPassState(rows, 1, [], rows[0].il, rows[0].xl, rows[0].v)
    ensures MeanPassState(rows, 1, [], rows[0].il, rows[0].xl, rows[0].v, 1)
  {
    GroupsSnoc([], rows[0]);
    assert rows[..1] == [] + [rows[0]];
    assert [rows[0]][..0] == [];
  }

  /**
   * `groupby_min`: one pass with an output cursor over a preallocated buffer. The source reads
   * `array[0]` before looping, so the input must not be empty.
   */
  method GroupByMin(rows: seq<Row>) returns (result: seq<Row>)
    requires |rows| > 0
    ensures result == MinRows(Groups(rows))
    ensures |result| <= |rows|
  {
    var n := |rows|;
    var output := new Row[n];
    var position := 0;
    var prevIl, prevXl := rows[0].il, rows[0].xl;
    var s := rows[0].v;
    PassStart(rows);
    for i := 1 to n
      invariant 0 <= position < i
      invariant MinPassState(rows, i, output[..position], prevIl, prevXl, s)
    {
      var curr := rows[i];
      MinPassStep(rows, i, output[..position], prevIl, prevXl, s);
      if prevIl == curr.il && prevXl == curr.xl {
        s := if curr.v < s then curr.v else s;
      } else {
        ghost var done := output[..position];
        output[position] := Row(prevIl, prevXl, s);
        assert output[..position + 1] == done + [Row(prevIl, prevXl, s)];
        position := position + 1;
        prevIl, prevXl := curr.il, curr.xl;
        s := curr.v;
      }
    }
    assert rows[..n] == rows;
    output[position] := Row(prevIl, prevXl, s);
    position := position + 1;
    result := output[..position];
    assert forall k :: 0 <= k < position ==> result[k] == MinRows(Groups(rows))[k];
  }

  /** `groupby_max`: the same pass as `groupby_min`, keeping the larger value. */
  method GroupByMax(rows: seq<Row>) returns (result: seq<Row>)
    requires |rows| > 0
    ensures result == MaxRows(Groups(rows))
    ensures |result| <= |rows|
  {
    var n := |rows|;
    var output := new Row[n];
    var position := 0;
    var prevIl, prevXl := rows[0].il, rows[0].xl;
    var s := rows[0].v;
    PassStart(rows);
    for i := 1 to n
      invariant 0 <= position < i
      invariant MaxPassState(rows, i, output[..position], prevIl, prevXl, s)
    {
      var curr := rows[i];
      MaxPassStep(rows, i, output[..position], prevIl, prevXl, s);
      if prevIl == curr.il && prevXl == curr.xl {
        s := if curr.v > s then curr.v else s;
      } else {
        ghost var done := output[..position];
        output[position] := Row(prevIl, prevXl, s);
        assert output[..position + 1] == done + [Row(prevIl, prevXl, s)];
        position := position + 1;
        prevIl, prevXl := curr.il, curr.xl;
        s := curr.v;
      }
    }
    assert rows[..n] == rows;
    output[position] := Row(prevIl, prevXl, s);
    position := position + 1;
    result := output[..position];
    assert forall k :: 0 <= k < position ==> result[k] == MaxRows(Groups(rows))[k];
  }

  /** `groupby_mean`: the same pass, keeping a running sum and count per run. */
  method GroupByMean(rows: seq<Row>) returns (result: seq<MeanRow>)
    requires |rows| > 0
    ensures result == MeanRows(Groups(rows))
    ensures |result| <= |rows|
  {
    var n := |rows|;
    var output := new MeanRow[n];
    var position := 0;
    var prevIl, prevXl := rows[0].il, rows[0].xl;
    var s, c := rows[0].v, 1;
    PassStart(rows);
    for i := 1 to n
      invariant 0 <= position < i
      invariant MeanPassState(rows, i, output[..position], prevIl, prevXl, s, c)
    {
      var curr := rows[i];
      MeanPassStep(rows, i, output[..position], prevIl, prevXl, s, c);
      if prevIl == curr.il && prevXl == curr.xl {
        s, c := s + curr.v, c + 1;
      } else {
        ghost var done := output[..position];
        output[position] := MeanRow(prevIl, prevXl, s as real / c as real);
        assert output[..position + 1] == done + [MeanRow(prevIl, prevXl, s as real / c as real)];
        position := position + 1;
        prevIl, prevXl := curr.il, curr.xl;
        s, c := curr.v, 1;
      }
    }
    assert rows[..n] == rows;
    output[position] := MeanRow(prevIl, prevXl, s as real / c as real);
    position := position + 1;
    result := output[..position];
    assert forall k :: 0 <= k < position ==> result[k] == MeanRows(Groups(rows))[k];
  }
}
