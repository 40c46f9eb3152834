/** The decimals that read back as a double, and what generating digits keeps. */
module ShortestDecimals {
  import opened Words
  import opened Powers
  import opened FloatGrid
  import opened Assembling
  import opened SoftMultiplication
  import opened DecimalPowers

  // ----- the interval of a double -----

  /** Below a power of two the grid is twice as fine, but for the least normal one. */
  predicate Boundary(bits: u64) { bits % HIDDEN == 0 && (bits / HIDDEN) % 0x800 > 1 }

  /** An even significand keeps the decimals at its two boundaries. */
  predicate Closed(p: Parts) { p.significand % 2 == 0 }

  ghost function Upper(p: Parts): real { Scaled(2 * p.significand + 1, p.exponent - 1) }

  ghost function Lower(p: Parts, boundary: bool): real {
    if boundary then Scaled(4 * p.significand - 1, p.exponent - 2) else Scaled(2 * p.significand - 1, p.exponent - 1)
  }

  ghost predicate Inside(d: real, lo: real, hi: real, closed: bool) {
    if closed then lo <= d <= hi else lo < d < hi
  }

  /** `bits` is the double nearest `d`. */
  ghost predicate ReadsBack(d: real, bits: u64) { Nearest(DOUBLE, d, Magnitude(bits)) }

  /** The boundaries lie half way to the neighbours. */
  lemma Midpoints(bits: u64)
    requires Decompose(bits).kind.Finite?
    ensures var p, m := Decompose(bits), Magnitude(bits);
            && 0 < m < INFINITY && m % 2 == p.significand % 2
            && Grid(DOUBLE, m) + Grid(DOUBLE, m + 1) == 2.0 * Upper(p)
            && Grid(DOUBLE, m - 1) + Grid(DOUBLE, m) == 2.0 * Lower(p, Boundary(bits))
  {
    hide Grid, Scaled, Decompose, Magnitude;
    var p, m := Decompose(bits), Magnitude(bits);
    MagnitudeIs(bits);
    var s, e := p.significand, p.exponent;
    Place(DOUBLE, e, s);
    Place(DOUBLE, e, s + 1);
    Parity(DOUBLE, e + 1074, s);
    Halfway(s, s + 1, e);
    if Boundary(bits) {
      Place(DOUBLE, e - 1, 2 * HIDDEN - 1);
      ScaledDouble(s, e - 1);
      Halfway(2 * s - 1, 2 * s, e - 1);
    } else {
      Place(DOUBLE, e, s - 1);
      Halfway(s - 1, s, e);
    }
  }

  /** A finite pattern from its parts. */
  lemma MagnitudeIs(bits: u64)
    requires Decompose(bits).kind.Finite?
    ensures var p, m := Decompose(bits), Magnitude(bits);
            && m == (p.exponent + 1074) * HIDDEN + p.significand && 0 < m < INFINITY
            && (Boundary(bits) <==> p.significand == HIDDEN && p.exponent > -1074)
  {
    Fields(bits);
  }

  lemma Halfway(s: int, t: int, e: int)
    ensures Scaled(s, e) + Scaled(t, e) == 2.0 * Scaled(s + t, e - 1)
  {
    hide Scaled;
    ScaledAdd(s, t, e);
    ScaledDouble(s + t, e - 1);
    ScaledTwice(s + t, e - 1);
  }

  lemma ScaledTwice(s: int, e: int)
    ensures Scaled(2 * s, e) == 2.0 * Scaled(s, e)
  {
    assert ((2 * s) as real) == 2.0 * (s as real);
  }

  /** A decimal reads back as the double exactly when it lies in its interval. */
  lemma IntervalReads(bits: u64, d: real)
    requires Decompose(bits).kind.Finite?
    ensures var p := Decompose(bits); ReadsBack(d, bits) <==> Inside(d, Lower(p, Boundary(bits)), Upper(p), Closed(p))
  {
    hide Grid, Decompose, Upper, Lower;
    var p, m := Decompose(bits), Magnitude(bits);
    Midpoints(bits);
    GridStep(DOUBLE, m - 1);
    GridStep(DOUBLE, m);
    if Inside(d, Lower(p, Boundary(bits)), Upper(p), Closed(p)) { NearestLocally(DOUBLE, d, m); }
    if ReadsBack(d, bits) { assert NoCloser(DOUBLE, d, m, m - 1) && NoCloser(DOUBLE, d, m, m + 1); }
  }

  // ----- a value and its boundaries over a common denominator -----

  /** `y` is `n / den` of 10^e. */
  ghost predicate Ratio10(y: real, n: int, den: int, e: int) { y * (den as real) == (n as real) * Exp10(e) }

  datatype Quad = Quad(num: nat, den: nat, above: nat, below: nat)

  /** The fraction `q` stands for a value with these boundaries, in units of 10^e. */
  ghost predicate Framed(lo: real, hi: real, q: Quad, e: int) {
    && q.den > 0 && 0 < q.below <= q.above && q.below < q.num && q.num <= 2 * HIDDEN * (q.above + q.below)
    && Ratio10(lo, q.num - q.below, q.den, e) && Ratio10(hi, q.num + q.above, q.den, e)
  }

  function ScaledUp(q: Quad, f: nat): Quad { Quad(q.num * f, q.den, q.above * f, q.below * f) }

  function ScaledDown(q: Quad, f: nat): Quad { q.(den := q.den * f) }

  lemma RatioUp(y: real, n: int, den: int, e: int, k: nat)
    requires Ratio10(y, n, den, e)
    ensures Ratio10(y, n * Pow10(k), den, e - k)
  {
    Exp10Sum(e - k, k);
    hide Exp10, Pow10;
    var x, p := Exp10(e - k), Pow10(k);
    assert ((n * p) as real) == (n as real) * (p as real);
    assert (n as real) * (x * (p as real)) == ((n as real) * (p as real)) * x;
  }

  lemma RatioDown(y: real, n: int, den: int, e: int, k: nat)
    requires Ratio10(y, n, den, e)
    ensures Ratio10(y, n, den * Pow10(k), e + k)
  {
    Exp10Sum(e, k);
    hide Exp10, Pow10;
    var x, p := Exp10(e), Pow10(k);
    assert ((den * p) as real) == (den as real) * (p as real);
    assert y * ((den as real) * (p as real)) == (y * (den as real)) * (p as real);
    assert (n as real) * (x * (p as real)) == ((n as real) * x) * (p as real);
  }

  lemma FramedUp(lo: real, hi: real, q: Quad, e: int, k: nat)
    requires Framed(lo, hi, q, e)
    ensures Framed(lo, hi, ScaledUp(q, Pow10(k)), e - k)
  {
    hide Pow10, Ratio10;
    var p := Pow10(k);
    RatioUp(lo, q.num - q.below, q.den, e, k);
    RatioUp(hi, q.num + q.above, q.den, e, k);
    SumTimes(q.num, q.below, q.above, p);
    UpOrder(q, p);
  }

  lemma SumTimes(n: int, below: int, above: int, p: int)
    ensures (n - below) * p == n * p - below * p && (n + above) * p == n * p + above * p
  {}

  lemma UpOrder(q: Quad, p: nat)
    requires p > 0 && 0 < q.below <= q.above && q.below < q.num && q.num <= 2 * HIDDEN * (q.above + q.below)
    ensures 0 < q.below * p <= q.above * p && q.below * p < q.num * p && q.num * p <= 2 * HIDDEN * (q.above * p + q.below * p)
  {
    ProductOrder(1, q.below, 1, p);
    ProductOrder(q.below, q.above, p, p);
    ProductOrder(q.below + 1, q.num, p, p);
    ProductOrder(q.num, 2 * HIDDEN * (q.above + q.below), p, p);
    OneMoreTimes(q.below, p);
    Regrouped(2 * HIDDEN, q.above, q.below, p);
  }

  lemma OneMoreTimes(n: int, p: int)
    ensures (n + 1) * p == n * p + p
  {}

  lemma Regrouped(c: nat, a: nat, b: nat, p: nat)
    ensures c * (a + b) * p == c * (a * p + b * p)
  {
    assert (a + b) * p == a * p + b * p;
    assert c * (a + b) * p == c * ((a + b) * p);
  }

  lemma FramedDown(lo: real, hi: real, q: Quad, e: int, k: nat)
    requires Framed(lo, hi, q, e)
    ensures Framed(lo, hi, ScaledDown(q, Pow10(k)), e + k)
  {
    hide Pow10, Ratio10;
    RatioDown(lo, q.num - q.below, q.den, e, k);
    RatioDown(hi, q.num + q.above, q.den, e, k);
    ProductOrder(1, q.den, 1, Pow10(k));
  }

  /** Comparing a fraction with a power of ten. */
  lemma AgainstPower(y: real, n: int, den: int, e: int, k: nat)
    requires den > 0 && Ratio10(y, n, den, e)
    ensures y < Exp10(e + k) <==> n < den * Pow10(k)
    ensures y > Exp10(e - k) <==> n * Pow10(k) > den
  {
    hide Exp10, Pow10;
    Exp10Sum(e, k);
    Exp10Sum(e - k, k);
    Against(y, n, den, Exp10(e), Pow10(k));
    RatioUp(y, n, den, e, k);
    Against(y, n * Pow10(k), den, Exp10(e - k), 1);
  }

  lemma Against(y: real, n: int, den: int, x: real, p: nat)
    requires den > 0 && x > 0.0 && y * (den as real) == (n as real) * x
    ensures y < x * (p as real) <==> n < den * p
    ensures y > x * (p as real) <==> n > den * p
  {
    var d, dp := den as real, (den * p) as real;
    assert dp == d * (p as real);
    assert (y - x * (p as real)) * d == y * d - x * dp;
    assert y * d - x * dp == ((n as real) - dp) * x;
    SameSign(y - x * (p as real), d, (n as real) - dp, x);
  }

  lemma SameSign(a: real, d: real, b: real, x: real)
    requires d > 0.0 && x > 0.0 && a * d == b * x
    ensures (a < 0.0 <==> b < 0.0) && (a > 0.0 <==> b > 0.0)
  {
    if a < 0.0 { assert a * d < 0.0; }
    if a > 0.0 { assert a * d > 0.0; }
    if b < 0.0 { assert b * x < 0.0; }
    if b > 0.0 { assert b * x > 0.0; }
  }

  // ----- decimals -----

  ghost function Decimal(c: int, t: int): real { (c as real) * Exp10(t) }

  lemma DecimalUp(c: nat, t: int, n: nat)
    ensures Decimal(c * Pow10(n), t) == Decimal(c, t + n)
  {
    Exp10Sum(t, n);
    hide Exp10, Pow10;
    var x, p := Exp10(t), Pow10(n);
    assert ((c * p) as real) == (c as real) * (p as real);
    assert ((c as real) * (p as real)) * x == (c as real) * (x * (p as real));
  }

  lemma DecimalOrder(a: int, b: int, t: int)
    requires a < b
    ensures Decimal(a, t) < Decimal(b, t)
  {
    var x, d := Exp10(t), (b - a) as real;
    assert (b as real) == (a as real) + d && d * x > 0.0;
    assert (b as real) * x == (a as real) * x + d * x;
  }

  /** A decimal of `j` places against a boundary. */
  lemma AgainstDecimal(y: real, n: int, den: int, k: int, j: nat, c: int)
    requires den > 0 && Ratio10(y, n, den, k)
    ensures y < Decimal(c, k - j) <==> n * Pow10(j) < c * den
    ensures y > Decimal(c, k - j) <==> n * Pow10(j) > c * den
  {
    hide Exp10, Pow10;
    RatioUp(y, n, den, k, j);
    var x, d, np, cd := Exp10(k - j), den as real, (n * Pow10(j)) as real, (c * den) as real;
    assert cd == (c as real) * d;
    assert (y - (c as real) * x) * d == y * d - cd * x;
    assert np * x - cd * x == (np - cd) * x;
    SameSign(y - (c as real) * x, d, np - cd, x);
  }

  // ----- generating digits -----

  predicate Over(v: int, limit: int, closed: bool) { v > limit || (v == limit && closed) }

  predicate Under(v: int, limit: int, closed: bool) { v < limit || (v == limit && closed) }

  /** No decimal of the places generated so far lies in the interval. */
  predicate Open(q: Quad, closed: bool) { !Under(q.num, q.below, closed) && !Over(q.num + q.above, q.den, closed) }

  /** `digits` is what has been generated of `start`, and `q` what is left. */
  ghost predicate Generated(start: Quad, q: Quad, j: nat, digits: nat) {
    && q.den == start.den && q.num < q.den
    && start.num * Pow10(j) == digits * q.den + q.num
    && q.above == start.above * Pow10(j) && q.below == start.below * Pow10(j)
  }

  /** Whether a decimal of `j` places lies in the interval, in whole numbers. */
  lemma InsideIs(lo: real, hi: real, start: Quad, k: int, closed: bool, q: Quad, j: nat, digits: nat, c: int)
    requires Framed(lo, hi, start, k) && Generated(start, q, j, digits)
    ensures var d := (c - digits) * q.den;
            Inside(Decimal(c, k - j), lo, hi, closed) <==>
              if closed then q.num - q.below <= d <= q.num + q.above else q.num - q.below < d < q.num + q.above
  {
    hide Ratio10, Pow10, Decimal;
    AgainstDecimal(lo, start.num - start.below, start.den, k, j, c);
    AgainstDecimal(hi, start.num + start.above, start.den, k, j, c);
    Distribute(start, Pow10(j), c, digits, q.den);
  }

  lemma Distribute(start: Quad, p: nat, c: int, digits: int, den: int)
    ensures (start.num - start.below) * p == start.num * p - start.below * p
    ensures (start.num + start.above) * p == start.num * p + start.above * p
    ensures (c - digits) * den == c * den - digits * den
  {}

  /** An open interval lies strictly between two decimals of its places. */
  lemma NothingInside(lo: real, hi: real, start: Quad, k: int, closed: bool, q: Quad, j: nat, digits: nat, c: int)
    requires Framed(lo, hi, start, k) && Generated(start, q, j, digits) && Open(q, closed)
    ensures !Inside(Decimal(c, k - j), lo, hi, closed)
  {
    hide Framed, Generated, Decimal, Inside;
    GeneratedFacts(start, q, j, digits);
    InsideIs(lo, hi, start, k, closed, q, j, digits, c);
    BetweenMultiples(c - digits, q.den);
  }

  lemma GeneratedFacts(start: Quad, q: Quad, j: nat, digits: nat)
    requires Generated(start, q, j, digits)
    ensures q.num < q.den
  {}

  lemma BetweenMultiples(m: int, den: nat)
    ensures m <= 0 ==> m * den <= 0
    ensures m >= 1 ==> m * den >= den
  {
    if m >= 1 { assert (m - 1) * den >= 0; }
  }

  /** The first digit generated is the first significant one. */
  predicate Leading(q: Quad, closed: bool) {
    !Over(q.num + q.above, q.den, closed) && Over(10 * (q.num + q.above), q.den, closed)
  }

  /** While the interval is open at `j` places, no decimal of `j` digits, at any exponent, lies in it. */
  lemma NoneShorter(lo: real, hi: real, start: Quad, k: int, closed: bool, q: Quad, j: nat, digits: nat, c: nat, t: int)
    requires Framed(lo, hi, start, k) && Leading(start, closed)
    requires Generated(start, q, j, digits) && Open(q, closed) && c < Pow10(j)
    ensures !Inside(Decimal(c, t), lo, hi, closed)
  {
    hide Framed, Generated, Decimal, Pow10, Inside;
    if t >= k - j {
      var n := t - (k - j);
      DecimalUp(c, k - j, n);
      NothingInside(lo, hi, start, k, closed, q, j, digits, c * Pow10(n));
    } else if j == 0 {
      PowZero();
      ZeroOutside(lo, hi, start, k, closed, t);
    } else {
      LeadingInside(lo, hi, start, k, closed, c, t, j);
      DecimalUp(1, k - j, j - 1);
      assert 1 * Pow10(j - 1) == Pow10(j - 1);
      NothingInside(lo, hi, start, k, closed, q, j, digits, Pow10(j - 1));
    }
  }

  lemma PowZero()
    ensures Pow10(0) == 1
  {}

  lemma ZeroOutside(lo: real, hi: real, start: Quad, k: int, closed: bool, t: int)
    requires Framed(lo, hi, start, k)
    ensures !Inside(Decimal(0, t), lo, hi, closed)
  {
    var d, n, x := start.den as real, (start.num - start.below) as real, Exp10(k);
    assert n * x > 0.0;
    assert lo <= 0.0 ==> lo * d <= 0.0;
  }

  /** A decimal in the interval below the leading power of ten puts that power in the interval too. */
  lemma LeadingInside(lo: real, hi: real, start: Quad, k: int, closed: bool, c: nat, t: int, j: nat)
    requires Framed(lo, hi, start, k) && Leading(start, closed) && c < Pow10(j) && t < k - j
    ensures Inside(Decimal(c, t), lo, hi, closed) ==> Inside(Decimal(1, k - 1), lo, hi, closed)
  {
    hide Pow10, Decimal, Ratio10;
    SmallDecimal(c, t, j, k);
    AgainstDecimal(hi, start.num + start.above, start.den, k, 1, 1);
    TenOnce();
  }

  lemma TenOnce()
    ensures Pow10(1) == 10
  {}

  lemma SmallDecimal(c: nat, t: int, j: nat, k: int)
    requires c < Pow10(j) && t < k - j
    ensures Decimal(c, t) < Decimal(1, k - 1)
  {
    hide Pow10, Decimal;
    DecimalOrder(c, Pow10(j), t);
    DecimalUp(1, t, j);
    assert 1 * Pow10(j) == Pow10(j);
    DecimalUp(1, t + j, k - 1 - t - j);
    OneAtMost(k - 1 - t - j, t + j);
  }

  lemma OneAtMost(n: nat, t: int)
    ensures Decimal(1, t) <= Decimal(1 * Pow10(n), t)
  {
    hide Decimal, Pow10;
    if 1 < 1 * Pow10(n) { DecimalOrder(1, 1 * Pow10(n), t); } else { assert 1 * Pow10(n) == 1; }
  }

  /** When the interval closes, one of the two nearest decimals lies in it. */
  lemma ClosesInside(lo: real, hi: real, start: Quad, k: int, closed: bool, q: Quad, j: nat, digits: nat)
    requires Framed(lo, hi, start, k) && Generated(start, q, j, digits)
    ensures Under(q.num, q.below, closed) ==> Inside(Decimal(digits, k - j), lo, hi, closed)
    ensures Over(q.num + q.above, q.den, closed) ==> Inside(Decimal(digits + 1, k - j), lo, hi, closed)
  {
    hide Decimal, Inside;
    AboveStays(start, j);
    InsideIs(lo, hi, start, k, closed, q, j, digits, digits);
    InsideIs(lo, hi, start, k, closed, q, j, digits, digits + 1);
  }

  lemma AboveStays(start: Quad, j: nat)
    requires 0 < start.above && 0 < start.below
    ensures start.above * Pow10(j) > 0 && start.below * Pow10(j) > 0
  {
    hide Pow10;
    ProductOrder(1, start.above, 1, Pow10(j));
    ProductOrder(1, start.below, 1, Pow10(j));
  }

  // ----- one digit -----

  lemma NextDigit(start: Quad, q: Quad, j: nat, digits: nat, digit: nat, rest: nat)
    requires Generated(start, q, j, digits) && q.num * 10 == digit * q.den + rest && rest < q.den
    ensures Generated(start, Quad(rest, q.den, q.above * 10, q.below * 10), j + 1, 10 * digits + digit)
  {
    assert Pow10(j + 1) == 10 * Pow10(j);
    hide Pow10;
    var p := Pow10(j);
    assert start.num * (10 * p) == 10 * (start.num * p);
    assert start.above * (10 * p) == start.above * p * 10 && start.below * (10 * p) == start.below * p * 10;
    assert (10 * digits + digit) * q.den == 10 * (digits * q.den) + digit * q.den;
  }

  lemma FirstDigit(start: Quad, closed: bool)
    requires start.above > 0 && start.below < start.num && Leading(start, closed)
    ensures Generated(start, start, 0, 0) && Open(start, closed)
  {
    PowZero();
  }

  /** Seventeen digits always suffice. */
  lemma EnoughDigits(start: Quad, q: Quad, j: nat, digits: nat, closed: bool)
    requires start.below > 0 && start.num <= 2 * HIDDEN * (start.above + start.below) && Leading(start, closed)
    requires Generated(start, q, j, digits) && Open(q, closed)
    ensures j < 17
  {
    hide Pow10;
    if j >= 17 {
      Pow10Is(j);
      Pow10Is(17);
      PowerGrows(10, 17, j);
      Seventeen();
      var gap: nat := start.above + start.below;
      Gaps(start, Pow10(j));
      ProductOrder(gap, gap, Pow10(17), Pow10(j));
    }
  }

  lemma Gaps(start: Quad, p: nat)
    ensures (start.above + start.below) * p == start.above * p + start.below * p
  {}

  lemma Seventeen()
    ensures Pow10(17) == 100_000_000_000_000_000
  {
    hide Pow10, Power;
    Pow10Is(17);
    Figures();
    PowerUnfold(10, 17);
  }
}
