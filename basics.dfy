/**
 * Facts shared by several modules: the ordering of integer sequences, and the integer
 * multiplication and floor-division facts the mixed-radix and ceiling arguments rest on.
 */
module Basics {

  /** Non-decreasing order. */
  predicate Sorted(s: seq<int>)
  {
    forall i, j :: 0 <= i < j < |s| ==> s[i] <= s[j]
  }

  lemma MulAtLeast(t: int, m: int)
    requires t >= 1 && m > 0
    ensures t * m >= m
  {
    assert t * m == (t - 1) * m + m;
  }

  /** Quotient and remainder are the only pair with `x == q * m + r` and `0 <= r < m`. */
  lemma DivModUnique(x: int, m: int, q: int, r: int)
    requires m > 0 && 0 <= r < m && x == q * m + r
    ensures x / m == q && x % m == r
  {
    var q', r' := x / m, x % m;
    assert x == q' * m + r';
    var t := q - q';
    assert t * m == r' - r by {
      assert q * m - q' * m == (q - q') * m;
    }
    if t >= 1 {
      MulAtLeast(t, m);
    } else if t <= -1 {
      MulAtLeast(-t, m);
    }
  }

  lemma DivBounds(x: int, d: int)
    requires x >= 0 && d > 0
    ensures 0 <= x / d <= x
  {
    var q, r := x / d, x % d;
    assert x == q * d + r;
    if q < 0 {
      MulAtLeast(-q, d);
    } else {
      MulNonneg(q, d - 1);
      assert q * d == q * (d - 1) + q;
    }
  }

  /** Floor division of naturals, `//` in the source. */
  function Quot(x: nat, d: nat): (q: nat)
    requires d > 0
    ensures q <= x
  {
    DivBounds(x, d);
    x / d
  }

  lemma MulNonneg(a: int, b: int)
    requires a >= 0 && b >= 0
    ensures a * b >= 0 && (a > 0 && b > 0 ==> a * b > 0)
  {
  }

  lemma MulAssoc(a: int, b: int, c: int)
    ensures a * (b * c) == (a * b) * c
  {
  }

  lemma MulMono(a: int, b: int, p: int)
    requires a >= b && p >= 0
    ensures a * p >= b * p
  {
    assert a * p - b * p == (a - b) * p;
    MulNonneg(a - b, p);
  }

  /** Dividing by a and then by b is dividing by a * b. */
  lemma DivDiv(x: nat, a: nat, b: nat)
    requires a > 0 && b > 0
    ensures x / a / b == x / (a * b)
  {
    var q1, r1 := x / a, x % a;
    var q2, r2 := q1 / b, q1 % b;
    assert x == q1 * a + r1;
    assert q1 == q2 * b + r2;
    assert x == q2 * (a * b) + (r2 * a + r1) by {
      assert q1 * a == (q2 * b + r2) * a == q2 * (a * b) + r2 * a;
    }
    MulMono(b - 1, r2, a);
    assert (b - 1) * a == a * b - a;
    MulNonneg(r2, a);
    DivModUnique(x, a * b, q2, r2 * a + r1);
  }
}
