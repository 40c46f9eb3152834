/** The exact remainder of doubles, and their order. */
module SoftRemainder {
  import opened Words
  import opened Powers
  import opened FloatGrid
  import opened Assembling
  import opened SoftAddition
  import opened SoftMultiplication

  /** The remainder of truncating division of non-negative reals. */
  ghost function TruncatedRemainder(x: real, y: real): real
    requires y > 0.0
  {
    x - y * ((x / y).Floor as real)
  }

  /** Whole units divide as integers do. */
  lemma ScaledRemainder(n: nat, d: nat, e: int)
    requires d > 0
    ensures Scaled(d, e) > 0.0 && TruncatedRemainder(Scaled(n, e), Scaled(d, e)) == Scaled(n % d, e)
  {
    hide Scaled;
    ScaledPositive(d, e);
    var x, y, q := Scaled(n, e), Scaled(d, e), n / d;
    assert n == d * q + n % d;
    ScaledAdd(d * q, n % d, e);
    ScaledLess(n % d, d, e);
    ScaledLess(-1, n % d, e);
    ScaledZero(e);
    ScaledLess(0, n % d, e);
    ScaledMultiple(d, q, e);
    FloorUnique(x, y, q, Scaled(n % d, e));
  }

  lemma ScaledZero(e: int)
    ensures Scaled(0, e) == 0.0
  {}

  lemma ScaledMultiple(d: nat, q: nat, e: int)
    ensures Scaled(d * q, e) == Scaled(d, e) * (q as real)
  {
    RealProduct(d, q);
    var s, t, p := d as real, q as real, Exp2(e);
    assert (s * t) * p == (s * p) * t;
  }

  lemma FloorUnique(x: real, y: real, q: int, r: real)
    requires y > 0.0 && x == y * (q as real) + r && 0.0 <= r < y
    ensures (x / y).Floor == q && TruncatedRemainder(x, y) == r
  {
    var k := q as real;
    Ratio(k, x, y);
    Ratio(k + 1.0, x, y);
    assert (k + 1.0) * y == y * k + y;
  }

  /** Few enough units above the lowest exponent are a point of the grid. */
  lemma {:induction false} OnGrid(f: Format, s: nat, e: int) returns (m: nat)
    requires Proper(f) && s < 2 * f.hidden && e >= f.lowest
    ensures Grid(f, m) == Scaled(s, e)
    ensures m <= (e - f.lowest) * f.hidden + s
    decreases e - f.lowest
  {
    hide Scaled;
    if s >= f.hidden || e == f.lowest {
      Place(f, e, s);
      m := (e - f.lowest) * f.hidden + s;
    } else {
      ScaledDouble(s, e - 1);
      m := OnGrid(f, 2 * s, e - 1);
      assert (e - f.lowest) * f.hidden == (e - 1 - f.lowest) * f.hidden + f.hidden;
    }
  }

  /** Rounding keeps a value the format has. */
  lemma RoundingKeeps(x: real, s: nat, e: int, m: nat)
    requires s < 2 * HIDDEN && -1074 <= e <= 971 && x == Scaled(s, e) && Nearest(DOUBLE, x, m)
    ensures Grid(DOUBLE, m) == x
  {
    hide Nearest, Grid, Scaled;
    var k := OnGrid(DOUBLE, s, e);
    GridIsNearest(DOUBLE, k);
    NearestUnique(DOUBLE, x, k, m);
  }

  // ----- reducing -----

  /** Equal remainders. */
  ghost predicate Same(m: int, n: int, d: nat) { d > 0 && m % d == n % d }

  /** A remainder found by subtracting shifted divisors. */
  method Reduce(value: u64, divisor: u64) returns (remainder: u64)
    ensures divisor == 0 ==> remainder == value
    ensures divisor > 0 ==> remainder < divisor && Same(remainder, value, divisor)
  {
    if divisor == 0 || value < divisor { return value; }
    hide Pow2, BitWidth, Same;
    Widths(value, divisor);
    SameSelf(value, divisor);
    remainder := value;
    var shift := BitWidth(value) - BitWidth(divisor);
    var scaled: u64 := divisor * Pow2(shift);
    while true
      invariant shift >= 0 && 0 <= scaled == divisor * Pow2(shift)
      invariant 0 <= remainder < 2 * scaled && Same(remainder, value, divisor)
      decreases shift
    {
      if remainder >= scaled {
        DropMultiple(remainder, value, divisor, Pow2(shift));
        remainder := remainder - scaled;
      }
      if shift == 0 {
        Pow2Base();
        break;
      }
      Pow2Next(shift - 1);
      HalfOf(divisor, Pow2(shift - 1));
      shift, scaled := shift - 1, scaled / 2;
    }
  }

  lemma SameSelf(n: int, d: nat)
    requires d > 0
    ensures Same(n, n, d)
  {}

  lemma HalfOf(d: nat, p: nat)
    ensures d * (2 * p) == 2 * (d * p) && d * (2 * p) / 2 == d * p
  {}

  lemma Widths(value: u64, divisor: u64)
    requires 0 < divisor <= value
    ensures BitWidth(divisor) <= BitWidth(value)
    ensures value < 2 * (divisor * Pow2(BitWidth(value) - BitWidth(divisor))) < 2 * WORD
  {
    hide Pow2, BitWidth;
    var v, d := BitWidth(value), BitWidth(divisor);
    if v < d { Pow2Monotone(v, d - 1); }
    var k := v - d;
    Pow2Values();
    if v > 64 { Pow2Monotone(64, v - 1); }
    Pow2Sum(d - 1, k);
    Pow2Sum(d, k);
    Pow2Next(v - 1);
    Pow2Monotone(v, 64);
    ProductOrder(Pow2(d - 1), divisor, Pow2(k), Pow2(k));
    ProductOrder(divisor + 1, Pow2(d), Pow2(k), Pow2(k));
    assert (divisor + 1) * Pow2(k) == divisor * Pow2(k) + Pow2(k);
  }

  lemma DropMultiple(m: int, n: int, d: nat, k: int)
    requires Same(m, n, d)
    ensures Same(m - d * k, n, d)
  {
    var q, r := m / d, m % d;
    assert m == d * q + r;
    assert d * (q - k) == d * q - d * k;
    DivisionUnique(m - d * k, d, q - k, r);
  }

  /** Reducing before scaling. */
  lemma ReduceFactor(m: nat, r: nat, n: nat, d: nat, p: nat)
    requires Same(r, m, d) && Same(m * p, n, d)
    ensures Same(r * p, n, d)
  {
    var k := m / d - r / d;
    assert m == d * (m / d) + m % d && r == d * (r / d) + r % d;
    assert m - r == d * k;
    assert m * p - d * (k * p) == r * p by { assert (m - r) * p == m * p - r * p; assert (d * k) * p == d * (k * p); }
    DropMultiple(m * p, n, d, k * p);
  }

  /** Lift a remainder by as many of the `steps` as its leading zeros allow. */
  method Lift(remainder: u64, divisor: u64, steps: nat) returns (r: u64, left: nat)
    requires 0 < remainder && 0 < divisor < 2 * HIDDEN
    ensures left <= steps && r > 0 && r * Pow2(left) == remainder * Pow2(steps)
    ensures left == 0 || r >= divisor
    ensures left < steps || r == remainder
  {
    hide Pow2, BitWidth;
    r, left := remainder, steps;
    while r < divisor && left > 0
      invariant 0 <= left <= steps && r > 0 && r * Pow2(left) == remainder * Pow2(steps)
      invariant left < steps || r == remainder
      decreases left
    {
      var room := 64 - BitWidth(r);
      var lift := if left < room then left else room;
      Room(r, lift);
      Regrouped(r, lift, left - lift);
      if lift == 0 { break; }
      r := r * Pow2(lift);
      left := left - lift;
    }
  }

  lemma Regrouped(r: nat, a: nat, b: nat)
    ensures (r * Pow2(a)) * Pow2(b) == r * Pow2(a + b)
  {
    Pow2Sum(a, b);
    hide Pow2;
    assert (r * Pow2(a)) * Pow2(b) == r * (Pow2(a) * Pow2(b));
  }

  /** Shifting into the leading zeros loses nothing; a small word has some. */
  lemma Room(r: u64, lift: int)
    requires r > 0
    ensures BitWidth(r) <= 64 && (r < 2 * HIDDEN ==> BitWidth(r) <= 53)
    ensures 0 <= lift <= 64 - BitWidth(r) ==> 0 < r * Pow2(lift) < WORD
  {
    hide Pow2, BitWidth;
    Pow2Values();
    var w := BitWidth(r);
    if w > 64 { Pow2Monotone(64, w - 1); }
    if r < 2 * HIDDEN && w > 53 { Pow2Monotone(53, w - 1); }
    if 0 <= lift <= 64 - w {
      Pow2Sum(w, lift);
      Pow2Monotone(w + lift, 64);
      ProductOrder(r + 1, Pow2(w), Pow2(lift), Pow2(lift));
      assert (r + 1) * Pow2(lift) == r * Pow2(lift) + Pow2(lift);
      ProductOrder(1, r, Pow2(lift), Pow2(lift));
    }
  }

  /** The remainder of `significand` at `exponent` in units of `divisorExponent`. */
  method LiftAndReduce(significand: u64, exponent: int, divisor: u64, divisorExponent: int) returns (remainder: u64, e: int)
    requires significand > 0 && 0 < divisor < 2 * HIDDEN && exponent >= divisorExponent
    ensures remainder == (significand * Pow2(exponent - divisorExponent)) % divisor && e >= divisorExponent
  {
    hide Pow2, Same;
    remainder, e := significand, exponent;
    var steps := exponent - divisorExponent;
    ghost var target := significand * Pow2(steps);
    SameSelf(target, divisor);
    while true
      invariant steps >= 0 && e == divisorExponent + steps
      invariant remainder > 0 && Same(remainder * Pow2(steps), target, divisor)
      decreases steps, remainder
    {
      var lifted, rest := Lift(remainder, divisor, steps);
      e, steps := e - (steps - rest), rest;
      remainder := lifted;
      if remainder >= divisor {
        var reduced := Reduce(remainder, divisor);
        ReduceFactor(remainder, reduced, target, divisor, Pow2(steps));
        remainder := reduced;
        e := Max(e, divisorExponent);
      }
      if steps == 0 || remainder == 0 { break; }
    }
    Pow2Base();
    Finished(remainder, Pow2(steps), target, divisor);
  }

  lemma Finished(r: nat, p: nat, n: nat, d: nat)
    requires Same(r * p, n, d) && r < d && (p == 1 || r == 0)
    ensures r == n % d
  {}

  /** A dividend of smaller exponent is smaller than a normal divisor. */
  lemma SmallerExponent(a: Parts, b: Parts)
    requires Canonical(a) && Canonical(b) && a.exponent < b.exponent
    ensures Size(a) < Size(b)
  {
    hide Scaled;
    var k := b.exponent - a.exponent;
    RaisedBy(b.significand, a.exponent, k);
    Pow2Monotone(1, k);
    assert Pow2(1) == 2;
    ProductOrder(2, Pow2(k), HIDDEN, b.significand);
    ScaledStrict(a.significand, Pow2(k) * b.significand, a.exponent);
  }

  lemma SmallIsItsRemainder(x: real, y: real)
    requires 0.0 <= x < y
    ensures TruncatedRemainder(x, y) == x
  {
    FloorUnique(x, y, 0, x);
  }

  /** The truncated remainder; nothing is rounded, and it takes the dividend's sign. */
  method RemBits(left: u64, right: u64) returns (bits: u64)
    ensures IsNaN(left) || IsNaN(right) || !IsFinite(left) || Magnitude(right) == 0 ==> bits == QUIET_NAN
    ensures IsFinite(left) && Magnitude(right) == INFINITY ==> bits == left
    ensures IsFinite(left) && IsFinite(right) && Magnitude(right) > 0 ==>
      && Abs(Value(right)) > 0.0
      && Abs(Value(bits)) == TruncatedRemainder(Abs(Value(left)), Abs(Value(right)))
      && Negative(bits) == Negative(left)
  {
    hide Nearest, Grid, Decompose, Represents, Pow2, TruncatedRemainder;
    var a, b := Decompose(left), Decompose(right);
    if a.kind.NotANumber? || b.kind.NotANumber? || a.kind.Infinite? || b.kind.Zero? { return QUIET_NAN; }
    AbsValue(left);
    AbsValue(right);
    if b.kind.Infinite? || a.kind.Zero? {
      if b.kind.Finite? { SmallIsItsRemainder(0.0, Abs(Value(right))); }
      return left;
    }
    if a.exponent < b.exponent {
      SmallerExponent(a, b);
      SmallIsItsRemainder(Size(a), Size(b));
      return left;
    }
    var remainder, exponent := LiftAndReduce(a.significand, a.exponent, b.significand, b.exponent);
    ghost var steps := a.exponent - b.exponent;
    Exact(remainder, b.exponent);
    ghost var x := Scaled(remainder, b.exponent);
    bits := Assemble(a.negative, Min(b.exponent, exponent), remainder, false, x);
    RoundingKeeps(x, remainder, b.exponent, Magnitude(bits));
    GridMonotone(DOUBLE, 0, Magnitude(bits));
    GridZero(DOUBLE);
    RaisedBy(a.significand, b.exponent, steps);
    assert Pow2(steps) * a.significand == a.significand * Pow2(steps);
    ScaledRemainder(a.significand * Pow2(steps), b.significand, b.exponent);
  }

  lemma AbsValue(bits: u64)
    ensures Magnitude(bits) == 0 ==> Abs(Value(bits)) == 0.0
    ensures Magnitude(bits) > 0 ==> Abs(Value(bits)) > 0.0
    ensures Decompose(bits).kind.Finite? ==> Canonical(Decompose(bits)) && Abs(Value(bits)) == Size(Decompose(bits))
  {
    hide Grid, Decompose;
    GridZero(DOUBLE);
    GridMonotone(DOUBLE, 0, Magnitude(bits));
    if Decompose(bits).kind.Finite? {
      DecomposeSigned(bits);
      Positive(Decompose(bits));
    }
  }

  // ----- order -----

  /** A double's place in the order: its magnitude, counted down when negative. */
  function Ordered(bits: u64): int {
    if bits >= SIGN then -(bits % SIGN) else bits
  }

  function Compare(left: u64, right: u64): int {
    if IsNaN(left) || IsNaN(right) then 2
    else if left % SIGN == 0 && right % SIGN == 0 then 0
    else if Ordered(left) < Ordered(right) then -1
    else if Ordered(left) > Ordered(right) then 1
    else 0
  }

  /** Comparison is the order of the values, the infinities outermost and both zeros equal. */
  lemma CompareOrders(left: u64, right: u64)
    ensures Compare(left, right) == 2 <==> IsNaN(left) || IsNaN(right)
    ensures !IsNaN(left) && !IsNaN(right) ==>
      && (Compare(left, right) == -1 <==> Value(left) < Value(right))
      && (Compare(left, right) == 0 <==> Value(left) == Value(right))
      && (Compare(left, right) == 1 <==> Value(left) > Value(right))
  {
    hide Grid;
    var m, n := Magnitude(left), Magnitude(right);
    GridZero(DOUBLE);
    GridMonotone(DOUBLE, 0, m);
    GridMonotone(DOUBLE, 0, n);
    if m <= n { GridMonotone(DOUBLE, m, n); }
    if n <= m { GridMonotone(DOUBLE, n, m); }
  }
}
