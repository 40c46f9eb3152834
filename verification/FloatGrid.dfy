/** Binary floating-point values and correct rounding, stated over the real numbers.

    A finite non-negative value of a format is a point of a grid indexed by its bit
    pattern; infinity closes the grid one step past the largest finite value, which
    is how overflow rounds in section 4.3.1 of IEEE 754-2019. */
module FloatGrid {
  import opened Words

  const HIDDEN: nat := 0x10_0000_0000_0000
  const SIGN: nat := 0x8000_0000_0000_0000
  const INFINITY: nat := 0x7FF0_0000_0000_0000
  const QUIET_NAN: nat := 0x7FF8_0000_0000_0000

  /** A format: the weight of its hidden bit, the exponent of its smallest
      subnormal, and the pattern of its infinity. */
  datatype Format = Format(hidden: nat, lowest: int, infinity: nat)

  const DOUBLE := Format(HIDDEN, -1074, INFINITY)
  const SINGLE := Format(0x80_0000, -149, 0x7F80_0000)

  predicate Proper(f: Format) { f.hidden >= 2 && f.hidden % 2 == 0 && f.infinity > 0 }

  // ----- powers of two -----

  ghost function Exp2(e: int): (r: real)
    ensures r > 0.0
    decreases if e < 0 then -e else e
  {
    if e == 0 then 1.0 else if e > 0 then 2.0 * Exp2(e - 1) else Exp2(e + 1) / 2.0
  }

  lemma Exp2Next(e: int)
    ensures Exp2(e + 1) == 2.0 * Exp2(e)
  {}

  lemma {:induction false} Exp2Sum(a: int, b: int)
    ensures Exp2(a + b) == Exp2(a) * Exp2(b)
    decreases if b < 0 then -b else b
  {
    Exp2Zero();
    hide Exp2;
    if b > 0 {
      Exp2Sum(a, b - 1);
      Exp2Next(a + b - 1);
      Exp2Next(b - 1);
      Regroup(Exp2(a), Exp2(b - 1));
    } else if b < 0 {
      Exp2Sum(a, b + 1);
      Exp2Next(a + b);
      Exp2Next(b);
      Regroup(Exp2(a), Exp2(b));
    }
  }

  lemma Exp2Zero()
    ensures Exp2(0) == 1.0
  {}

  lemma Regroup(p: real, q: real)
    ensures 2.0 * (p * q) == p * (2.0 * q)
  {}

  /** A whole number of units of weight 2^e. */
  ghost function Scaled(s: int, e: int): real { (s as real) * Exp2(e) }

  lemma ScaledAdd(s: int, t: int, e: int)
    ensures Scaled(s + t, e) == Scaled(s, e) + Scaled(t, e)
  {
    assert ((s + t) as real) == (s as real) + (t as real);
  }

  lemma ScaledDouble(s: int, e: int)
    ensures Scaled(2 * s, e) == Scaled(s, e + 1)
  {
    Exp2Next(e);
    assert ((2 * s) as real) == 2.0 * (s as real);
  }

  lemma ScaledLess(s: int, t: int, e: int)
    ensures s < t <==> Scaled(s, e) < Scaled(t, e)
    ensures s == t <==> Scaled(s, e) == Scaled(t, e)
  {
    if s < t { ScaledStrict(s, t, e); }
    if t < s { ScaledStrict(t, s, e); }
  }

  lemma ScaledStrict(s: int, t: int, e: int)
    requires s < t
    ensures Scaled(s, e) < Scaled(t, e)
  {
    var p, d := Exp2(e), (t - s) as real;
    assert (t as real) == (s as real) + d && d > 0.0;
    assert (t as real) * p == (s as real) * p + d * p;
    assert d * p > 0.0;
  }

  // ----- the grid -----

  /** The value of the magnitude whose bit pattern is `m`. */
  ghost function Grid(f: Format, m: nat): real
    requires Proper(f)
  {
    if m < f.hidden then Scaled(m, f.lowest) else Scaled(f.hidden + m % f.hidden, m / f.hidden - 1 + f.lowest)
  }

  /** The pattern of `value` units of weight 2^e, subnormal or normal. */
  lemma Place(f: Format, e: int, value: nat)
    requires Proper(f) && e >= f.lowest && value <= 2 * f.hidden && (value >= f.hidden || e == f.lowest)
    ensures (e - f.lowest) * f.hidden >= 0
    ensures Grid(f, (e - f.lowest) * f.hidden + value) == Scaled(value, e)
  {
    hide Scaled;
    var k := e - f.lowest;
    var m := k * f.hidden + value;
    if value < f.hidden {
    } else if value < 2 * f.hidden {
      assert m == f.hidden * (k + 1) + (value - f.hidden);
      DivisionUnique(m, f.hidden, k + 1, value - f.hidden);
      assert m >= f.hidden;
    } else {
      assert m == f.hidden * (k + 2) + 0;
      DivisionUnique(m, f.hidden, k + 2, 0);
      assert m >= f.hidden;
      ScaledDouble(f.hidden, e);
    }
  }

  /** The grid ascends. */
  lemma GridStep(f: Format, m: nat)
    requires Proper(f)
    ensures Grid(f, m) < Grid(f, m + 1)
  {
    hide Scaled;
    if m < f.hidden {
      Place(f, f.lowest, m);
      Place(f, f.lowest, m + 1);
      ScaledStrict(m, m + 1, f.lowest);
    } else {
      var b, r := m / f.hidden, m % f.hidden;
      assert m == f.hidden * b + r;
      assert b >= 1;
      var e, v := b - 1 + f.lowest, f.hidden + r;
      assert (e - f.lowest) * f.hidden + v == m;
      Place(f, e, v);
      Place(f, e, v + 1);
      ScaledStrict(v, v + 1, e);
    }
  }

  lemma {:induction false} GridMonotone(f: Format, m: nat, n: nat)
    requires Proper(f) && m <= n
    ensures Grid(f, m) <= Grid(f, n) && (m < n ==> Grid(f, m) < Grid(f, n))
    decreases n - m
  {
    hide Grid;
    if m < n {
      GridStep(f, n - 1);
      GridMonotone(f, m, n - 1);
    }
  }

  lemma GridZero(f: Format)
    requires Proper(f)
    ensures Grid(f, 0) == 0.0
  {}

  // ----- rounding -----

  function Distance(x: real, y: real): real { if x >= y then x - y else y - x }

  /** `m` is the nearest point of the grid to `x`, the even one when two are. */
  ghost predicate Nearest(f: Format, x: real, m: nat)
    requires Proper(f)
  {
    && m <= f.infinity
    && forall k: nat :: k <= f.infinity ==> NoCloser(f, x, m, k)
  }

  ghost predicate NoCloser(f: Format, x: real, m: nat, k: nat)
    requires Proper(f)
  {
    && Distance(x, Grid(f, m)) <= Distance(x, Grid(f, k))
    && (k != m && Distance(x, Grid(f, m)) == Distance(x, Grid(f, k)) ==> m % 2 == 0)
  }

  /** It is enough to beat the two neighbours. */
  lemma NearestLocally(f: Format, x: real, m: nat)
    requires Proper(f) && m <= f.infinity
    requires m > 0 ==> Grid(f, m - 1) + Grid(f, m) <= 2.0 * x && (Grid(f, m - 1) + Grid(f, m) == 2.0 * x ==> m % 2 == 0)
    requires m < f.infinity ==> 2.0 * x <= Grid(f, m) + Grid(f, m + 1) && (2.0 * x == Grid(f, m) + Grid(f, m + 1) ==> m % 2 == 0)
    requires m == 0 ==> x >= 0.0
    ensures Nearest(f, x, m)
  {
    hide Grid;
    GridZero(f);
    forall k: nat | k <= f.infinity ensures NoCloser(f, x, m, k) {
      if k < m {
        GridMonotone(f, k, m - 1);
        GridStep(f, m - 1);
      } else if m < k {
        GridMonotone(f, m + 1, k);
        GridStep(f, m);
      }
    }
  }

  /** A point of the grid is nearest to itself. */
  lemma GridIsNearest(f: Format, m: nat)
    requires Proper(f) && m <= f.infinity
    ensures Nearest(f, Grid(f, m), m)
  {
    hide Grid;
    GridZero(f);
    if m > 0 { GridStep(f, m - 1); }
    GridStep(f, m);
    NearestLocally(f, Grid(f, m), m);
  }

  /** Two points equally near are neighbours. */
  lemma TieIsNeighbour(f: Format, x: real, m: nat, n: nat)
    requires Proper(f) && Nearest(f, x, m) && m < n <= f.infinity && Distance(x, Grid(f, m)) == Distance(x, Grid(f, n))
    ensures n == m + 1
  {
    hide Grid;
    assert NoCloser(f, x, m, m + 1);
    GridMonotone(f, m, m + 1);
    if m + 1 < n { GridMonotone(f, m + 1, n); }
  }

  /** Rounding to nearest even has one answer. */
  lemma NearestUnique(f: Format, x: real, m: nat, n: nat)
    requires Proper(f) && Nearest(f, x, m) && Nearest(f, x, n)
    ensures m == n
  {
    hide Grid;
    assert NoCloser(f, x, m, n) && NoCloser(f, x, n, m);
    if m < n { TieIsNeighbour(f, x, m, n); }
    if n < m { TieIsNeighbour(f, x, n, m); }
  }
}
