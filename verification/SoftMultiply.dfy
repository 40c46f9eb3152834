/** Multiplication and division of doubles from integer operations. */
module SoftMultiplication {
  import opened Words
  import opened Powers
  import opened FloatGrid
  import opened Assembling
  import opened SoftAddition

  const WORD: nat := 0x1_0000_0000_0000_0000
  const HALF_WORD: nat := 0x1_0000_0000

  // ----- products -----

  lemma Exchange(s: real, p: real, t: real, q: real)
    ensures (s * p) * (t * q) == (s * t) * (p * q)
  {
    assert (s * p) * (t * q) == s * (p * (t * q));
    assert p * (t * q) == t * (p * q);
  }

  lemma ScaledProduct(s: nat, t: nat, e: int, f: int)
    ensures Scaled(s, e) * Scaled(t, f) == Scaled(s * t, e + f)
  {
    Exp2Sum(e, f);
    hide Exp2;
    Exchange(s as real, Exp2(e), t as real, Exp2(f));
    RealProduct(s, t);
  }

  lemma RealProduct(s: nat, t: nat)
    ensures (s * t) as real == (s as real) * (t as real)
  {}

  // ----- multiplication -----

  /** A sum of words: what is kept, and whether it wrapped. */
  function OverflowingAdd(a: u64, b: u64): (r: (u64, bool))
    ensures r.0 + (if r.1 then WORD else 0) == a + b
  {
    if a + b >= WORD then (a + b - WORD, true) else (a + b, false)
  }

  /** The product of two half words fits a word. */
  lemma HalfProduct(a: nat, b: nat)
    requires a < HALF_WORD && b < HALF_WORD
    ensures 0 <= a * b <= (HALF_WORD - 1) * (HALF_WORD - 1)
  {
    var m: nat := HALF_WORD - 1;
    assert a * b <= m * m by { ProductOrder(a, m, b, m); }
    assert 0 <= a * b by { ProductOrder(0, a, 0, b); }
  }

  lemma Expand(al: nat, ah: nat, bl: nat, bh: nat)
    ensures (al + HALF_WORD * ah) * (bl + HALF_WORD * bh) ==
            al * bl + HALF_WORD * (al * bh + ah * bl) + WORD * (ah * bh)
  {
    var h := HALF_WORD;
    assert (al + h * ah) * (bl + h * bh) == al * bl + al * (h * bh) + (h * ah) * bl + (h * ah) * (h * bh);
    assert al * (h * bh) == h * (al * bh) && (h * ah) * bl == h * (ah * bl);
    assert (h * ah) * (h * bh) == (h * h) * (ah * bh);
  }

  /** Four half products, carries kept, make up the double word. */
  lemma Halves(ll: nat, lh: nat, hl: nat, hh: nat, middle: u64, carry: bool, low: u64, overflow: bool)
    requires middle + (if carry then WORD else 0) == lh + hl
    requires low + (if overflow then WORD else 0) == ll + middle % HALF_WORD * HALF_WORD
    ensures WORD * (hh + middle / HALF_WORD + (if carry then HALF_WORD else 0) + (if overflow then 1 else 0)) + low
         == ll + HALF_WORD * (lh + hl) + WORD * hh
  {}

  lemma HighFits(high: nat, low: nat, left: u64, right: u64)
    requires WORD * high + low == left * right
    ensures high < WORD
  {
    ProductOrder(left, WORD - 1, right, WORD - 1);
  }

  /** A product of two words, high word and low word. */
  function WideMultiply(left: u64, right: u64): (r: (u64, u64))
    ensures WORD * r.0 + r.1 == left * right
  {
    var al, ah, bl, bh := left % HALF_WORD, left / HALF_WORD, right % HALF_WORD, right / HALF_WORD;
    HalfProduct(al, bl);
    HalfProduct(al, bh);
    HalfProduct(ah, bl);
    HalfProduct(ah, bh);
    var ll: u64 := al * bl;
    var lh: u64 := al * bh;
    var hl: u64 := ah * bl;
    var hh: u64 := ah * bh;
    var (middle, carry) := OverflowingAdd(lh, hl);
    var high := hh + middle / HALF_WORD + if carry then HALF_WORD else 0;
    var (low, overflow) := OverflowingAdd(ll, middle % HALF_WORD * HALF_WORD);
    var top := if overflow then high + 1 else high;
    Expand(al, ah, bl, bh);
    Halves(ll, lh, hl, hh, middle, carry, low, overflow);
    HighFits(top, low, left, right);
    (top, low)
  }

  /** Both halves shifted down together by less than a word. */
  lemma SplitLow(high: nat, low: u64, drop: nat)
    requires drop < 64
    ensures (WORD * high + low) / Pow2(drop) == high * Pow2(64 - drop) + low / Pow2(drop)
    ensures (WORD * high + low) % Pow2(drop) == low % Pow2(drop)
  {
    hide Pow2;
    Pow2Values();
    Pow2Sum(64 - drop, drop);
    SplitAt(Pow2(drop), Pow2(64 - drop), high, low);
  }

  lemma SplitAt(p: nat, c: nat, high: nat, low: nat)
    requires p > 0
    ensures ((c * p) * high + low) / p == high * c + low / p && ((c * p) * high + low) % p == low % p
  {
    var q, r := low / p, low % p;
    assert low == p * q + r;
    assert (c * p) * high == p * (high * c);
    assert p * (high * c + q) == p * (high * c) + p * q;
    DivisionUnique((c * p) * high + low, p, high * c + q, r);
  }

  /** Shifted down by a word and `extra` bits more. */
  lemma SplitHigh(high: nat, low: u64, extra: nat)
    ensures (WORD * high + low) / Pow2(64 + extra) == high / Pow2(extra)
    ensures (WORD * high + low) % Pow2(64 + extra) != 0 <==> high % Pow2(extra) != 0 || low != 0
  {
    Pow2Values();
    Pow2Sum(64, extra);
    hide Pow2;
    Divides(high, Pow2(extra));
    SplitWords(high, low, Pow2(extra), high / Pow2(extra), high % Pow2(extra));
  }

  lemma SplitWords(high: nat, low: u64, p: nat, q: nat, r: nat)
    requires high == p * q + r && r < p
    ensures (WORD * high + low) / (WORD * p) == q && (WORD * high + low) % (WORD * p) == WORD * r + low
  {
    assert WORD * (p * q) == (WORD * p) * q;
    DivisionUnique(WORD * high + low, WORD * p, q, WORD * r + low);
  }

  /** A window of 54 bits is what a drop to that width leaves. */
  lemma Window(high: u64, low: u64)
    requires high > 0
    ensures 2 * HIDDEN <= (WORD * high + low) / Pow2(BitWidth(high) + 10) < 4 * HIDDEN
    ensures BitWidth(high) <= 64
  {
    hide Pow2, BitWidth;
    var w := BitWidth(high);
    Pow2Values();
    if w > 64 { Pow2Monotone(64, w - 1); }
    Pow2Next(w - 1);
    Pow2Sum(w, 64);
    Pow2Sum(w + 10, 54);
    var p, h, total := Pow2(w + 10), Pow2(w - 1), WORD * high + low;
    assert p * (4 * HIDDEN) == 2 * h * WORD;
    WindowTotal(p, h, high, low);
  }

  lemma WindowTotal(p: nat, h: nat, high: nat, low: u64)
    requires p > 0 && p * (4 * HIDDEN) == 2 * h * WORD && h <= high < 2 * h
    ensures 2 * HIDDEN <= (WORD * high + low) / p < 4 * HIDDEN
  {
    var total := WORD * high + low;
    var q, r := total / p, total % p;
    assert total == p * q + r;
    assert p * (2 * HIDDEN) == h * WORD;
    WindowBound(p, q, r);
  }

  lemma WindowBound(p: nat, q: int, r: nat)
    requires 0 <= r < p && p * (2 * HIDDEN) <= p * q + r < p * (4 * HIDDEN)
    ensures 2 * HIDDEN <= q < 4 * HIDDEN
  {
    assert p * (q + 1) == p * q + p;
    CancelLess(p, 2 * HIDDEN, q + 1);
    CancelLess(p, q, 4 * HIDDEN);
  }

  /** Round a double word at `exponent`; `x` is the exact magnitude. */
  method Fold(negative: bool, exponent: int, high: u64, low: u64, ghost x: real) returns (bits: u64)
    requires Represents(x, exponent, WORD * high + low, false)
    ensures Nearest(DOUBLE, x, Magnitude(bits)) && Negative(bits) == negative
  {
    hide Represents, Nearest, Pow2, BitWidth;
    if high == 0 {
      bits := Assemble(negative, exponent, low, false, x);
      return;
    }
    var width := 64 + BitWidth(high);
    var drop := width - 54;
    Window(high, low);
    ShiftDownBy(x, exponent, WORD * high + low, drop);
    var significand: u64, sticky;
    if drop < 64 {
      SplitLow(high, low, drop);
      significand := high * Pow2(64 - drop) + low / Pow2(drop);
      sticky := low % Pow2(drop) != 0;
    } else {
      var extra := drop - 64;
      SplitHigh(high, low, extra);
      significand := high / Pow2(extra);
      var lostHigh := if extra == 0 then 0 else high % Pow2(extra);
      ModuloOne(high, extra);
      sticky := lostHigh != 0 || low != 0;
    }
    bits := Assemble(negative, exponent + drop, significand, sticky, x);
  }

  lemma ModuloOne(s: nat, n: nat)
    ensures n == 0 ==> s % Pow2(n) == 0
  {}

  lemma ProductRepresents(a: Parts, b: Parts, x: real, total: nat, exponent: int)
    requires x == Size(a) * Size(b) && total == a.significand * b.significand && exponent == a.exponent + b.exponent
    ensures Represents(x, exponent, total, false)
  {
    hide Represents, Scaled;
    ScaledProduct(a.significand, b.significand, a.exponent, b.exponent);
    assert x == Scaled(total, exponent);
    Exact(total, exponent);
  }

  /** Multiplication: correctly rounded, with the sign of the product even at zero. */
  method MulBits(left: u64, right: u64) returns (bits: u64)
    ensures IsNaN(left) || IsNaN(right) ==> bits == QUIET_NAN
    ensures !IsNaN(left) && !IsNaN(right) && !(IsFinite(left) && IsFinite(right)) ==>
      bits == if Magnitude(left) == 0 || Magnitude(right) == 0 then QUIET_NAN
              else SignBit(Negative(left) != Negative(right)) + INFINITY
    ensures IsFinite(left) && IsFinite(right) ==>
      && Nearest(DOUBLE, Abs(Value(left) * Value(right)), Magnitude(bits))
      && Negative(bits) == (Negative(left) != Negative(right))
  {
    hide Nearest, Grid, Decompose, Represents, WideMultiply, Value, Signed, Size, Abs;
    var a, b := Decompose(left), Decompose(right);
    var negative := a.negative != b.negative;
    if a.kind.NotANumber? || b.kind.NotANumber? { return QUIET_NAN; }
    if a.kind.Infinite? || b.kind.Infinite? {
      if a.kind.Zero? || b.kind.Zero? { return QUIET_NAN; }
      return INFINITY + SignBit(negative);
    }
    ghost var x := Abs(Value(left) * Value(right));
    if a.kind.Zero? || b.kind.Zero? {
      ZeroProduct(left, right);
      GridIsNearest(DOUBLE, 0);
      return SignBit(negative);
    }
    DecomposeSigned(left);
    DecomposeSigned(right);
    var (high, low) := WideMultiply(a.significand, b.significand);
    FiniteProduct(left, right, WORD * high + low, a.exponent + b.exponent);
    bits := Fold(negative, a.exponent + b.exponent, high, low, x);
  }

  lemma ZeroProduct(left: u64, right: u64)
    requires Magnitude(left) == 0 || Magnitude(right) == 0
    ensures Abs(Value(left) * Value(right)) == Grid(DOUBLE, 0)
  {
    hide Grid;
    GridZero(DOUBLE);
    assert Value(left) == 0.0 || Value(right) == 0.0;
  }

  lemma FiniteProduct(left: u64, right: u64, total: nat, exponent: int)
    requires Decompose(left).kind.Finite? && Decompose(right).kind.Finite?
    requires total == Decompose(left).significand * Decompose(right).significand
    requires exponent == Decompose(left).exponent + Decompose(right).exponent
    ensures Represents(Abs(Value(left) * Value(right)), exponent, total, false)
  {
    hide Represents, Size, Decompose, Value;
    var a, b := Decompose(left), Decompose(right);
    DecomposeSigned(left);
    DecomposeSigned(right);
    Positive(a);
    Positive(b);
    SignsOfProduct(Size(a), Size(b));
    assert Abs(Value(left) * Value(right)) == Size(a) * Size(b);
    ProductRepresents(a, b, Abs(Value(left) * Value(right)), total, exponent);
  }

  lemma SignsOfProduct(x: real, y: real)
    requires x > 0.0 && y > 0.0
    ensures Abs(x * y) == Abs((-x) * y) == Abs(x * (-y)) == Abs((-x) * (-y)) == x * y
    ensures Abs(x / y) == Abs((-x) / y) == Abs(x / (-y)) == Abs((-x) / (-y)) == x / y
  {
    assert x * y > 0.0 && (-x) * y == -(x * y) && x * (-y) == -(x * y) && (-x) * (-y) == x * y;
    QuotientIs(x, y, x / y);
    QuotientIs(-x, y, -(x / y));
    QuotientIs(x, -y, -(x / y));
    QuotientIs(-x, -y, x / y);
    QuotientPositive(x, y);
  }

  lemma QuotientIs(x: real, y: real, q: real)
    requires y != 0.0 && q * y == x
    ensures x / y == q
  {}

  lemma QuotientPositive(x: real, y: real)
    requires x > 0.0 && y > 0.0
    ensures x / y > 0.0
  {}

  // ----- division -----

  /** Shift up until the hidden bit is set. */
  method Normalise(significand: u64, exponent: int) returns (s: u64, e: int)
    requires significand < 2 * HIDDEN
    ensures significand == 0 ==> s == 0 && e == exponent
    ensures significand > 0 ==> HIDDEN <= s < 2 * HIDDEN && Scaled(s, e) == Scaled(significand, exponent)
  {
    hide Scaled;
    if significand == 0 { return 0, exponent; }
    s, e := significand, exponent;
    while s < HIDDEN
      invariant 0 < s < 2 * HIDDEN && Scaled(s, e) == Scaled(significand, exponent)
      decreases HIDDEN - s
    {
      ScaledDouble(s, e - 1);
      s, e := s * 2, e - 1;
    }
  }

  /** Long division in binary: 55 quotient bits and what is left, doubled. */
  method LongDivide(dividend: u64, divisor: u64) returns (quotient: u64, remainder: u64)
    requires HIDDEN <= dividend < 2 * HIDDEN && HIDDEN <= divisor < 2 * HIDDEN
    ensures Pow2(55) * dividend == 2 * quotient * divisor + remainder && remainder < 2 * divisor
    ensures quotient >= 2 * HIDDEN
  {
    hide Pow2;
    Pow2Base();
    quotient, remainder := 0, dividend;
    var produced := 0;
    while produced < 55
      invariant 0 <= produced <= 55
      invariant 0 <= quotient < Pow2(produced)
      invariant 0 <= remainder < 2 * divisor
      invariant Pow2(produced) * dividend == 2 * quotient * divisor + remainder
    {
      Pow2Next(produced);
      Pow2Monotone(produced + 1, 55);
      Pow2Fits();
      DivideStep(Pow2(produced), dividend, divisor, quotient, remainder);
      quotient := quotient * 2;
      if remainder >= divisor {
        remainder := remainder - divisor;
        quotient := quotient + 1;
      }
      remainder := remainder * 2;
      produced := produced + 1;
    }
    Pow2Fits();
    WideQuotient(dividend, divisor, quotient, remainder);
  }

  lemma Pow2Fits()
    ensures Pow2(55) == 8 * HIDDEN
  {
    Pow2Values();
    Pow2Next(54);
  }

  lemma DivideStep(p: nat, n: nat, d: nat, q: nat, r: nat)
    requires p * n == 2 * q * d + r
    ensures (2 * p) * n == 2 * (2 * q) * d + 2 * r
    ensures (2 * p) * n == 2 * (2 * q + 1) * d + 2 * (r - d)
  {
    assert (2 * p) * n == 2 * (p * n);
    assert 2 * (2 * q) * d == 2 * (2 * q * d);
    assert 2 * (2 * q + 1) * d == 2 * (2 * q * d) + 2 * d;
  }

  /** Operands of one width leave at least 54 significant quotient bits. */
  lemma WideQuotient(n: nat, d: nat, q: nat, r: nat)
    requires HIDDEN <= n && 0 < d < 2 * HIDDEN && r < 2 * d && 8 * HIDDEN * n == 2 * q * d + r
    ensures q >= 2 * HIDDEN
  {
    assert (q + 1) * d == q * d + d && 2 * q * d == 2 * (q * d);
    assert 2 * (q * d + d) > 8 * HIDDEN * n >= 4 * HIDDEN * (d + 1);
    assert d * (2 * HIDDEN) < d * (q + 1);
    CancelLess(d, 2 * HIDDEN, q + 1);
  }

  /** The quotient's bits represent the exact ratio. */
  lemma RatioRepresents(n: nat, d: nat, en: int, ed: int, q: nat, r: nat)
    requires n > 0 && d > 0 && r < 2 * d && Pow2(55) * n == 2 * q * d + r
    ensures Scaled(d, ed) > 0.0 && Represents(Scaled(n, en) / Scaled(d, ed), en - ed - 54, q, r != 0)
  {
    hide Pow2, Scaled;
    var e := en - ed - 54;
    var y := Scaled(d, ed);
    ScaledPositive(d, ed);
    // Compare q, q + 1 and the ratio after multiplying by 2d at the divisor's weight.
    Crossed(q, d, e, ed);
    Crossed(q + 1, d, e, ed);
    Numerator(n, en, e + ed);
    ScaledLess(2 * q * d, Pow2(55) * n, e + ed - 1);
    ScaledLess(Pow2(55) * n, 2 * (q + 1) * d, e + ed - 1);
    assert 2 * (q + 1) * d == 2 * q * d + 2 * d;
    Ratio(Scaled(q, e), Scaled(n, en), y);
    Ratio(Scaled(q + 1, e), Scaled(n, en), y);
  }

  lemma ScaledPositive(s: nat, e: int)
    requires s > 0
    ensures Scaled(s, e) > 0.0
  {
    ScaledLess(0, s, e);
  }

  lemma Crossed(q: nat, d: nat, e: int, ed: int)
    ensures Scaled(q, e) * Scaled(d, ed) == Scaled(2 * q * d, e + ed - 1)
  {
    hide Scaled;
    ScaledProduct(q, d, e, ed);
    assert 2 * q * d == 2 * (q * d);
    ScaledDouble(q * d, e + ed - 1);
  }

  lemma Numerator(n: nat, en: int, e: int)
    requires en == e + 54
    ensures Scaled(n, en) == Scaled(Pow2(55) * n, e - 1)
  {
    RaisedBy(n, e - 1, 55);
  }

  lemma {:induction false} RaisedBy(n: nat, e: int, k: nat)
    ensures Scaled(n, e + k) == Scaled(Pow2(k) * n, e)
    decreases k
  {
    Pow2Base();
    hide Scaled, Pow2;
    if k > 0 {
      RaisedBy(n, e + 1, k - 1);
      ScaledDouble(Pow2(k - 1) * n, e);
      Pow2Next(k - 1);
      assert 2 * (Pow2(k - 1) * n) == Pow2(k) * n;
    }
  }

  lemma Ratio(z: real, x: real, y: real)
    requires y > 0.0
    ensures z < x / y <==> z * y < x
    ensures z == x / y <==> z * y == x
  {
    var w := x / y;
    assert w * y == x;
    if z < w { assert (w - z) * y > 0.0; }
    if z > w { assert (z - w) * y > 0.0; }
  }

  /** Division: correctly rounded for a finite non-zero divisor. */
  method DivBits(left: u64, right: u64) returns (bits: u64)
    ensures IsNaN(left) || IsNaN(right) ==> bits == QUIET_NAN
    ensures !IsNaN(left) && !IsNaN(right) && !IsFinite(left) ==>
      bits == if IsFinite(right) then SignBit(Negative(left) != Negative(right)) + INFINITY else QUIET_NAN
    ensures IsFinite(left) && Magnitude(right) == INFINITY ==> bits == SignBit(Negative(left) != Negative(right))
    ensures IsFinite(left) && Magnitude(right) == 0 ==>
      bits == if Magnitude(left) == 0 then QUIET_NAN else SignBit(Negative(left) != Negative(right)) + INFINITY
    ensures IsFinite(left) && IsFinite(right) && Magnitude(right) > 0 ==>
      && Value(right) != 0.0
      && Nearest(DOUBLE, Abs(Value(left) / Value(right)), Magnitude(bits))
      && Negative(bits) == (Negative(left) != Negative(right))
  {
    hide Nearest, Grid, Decompose, Represents, Pow2;
    var a, b := Decompose(left), Decompose(right);
    var negative := a.negative != b.negative;
    if a.kind.NotANumber? || b.kind.NotANumber? { return QUIET_NAN; }
    if a.kind.Infinite? {
      if b.kind.Infinite? { return QUIET_NAN; }
      return INFINITY + SignBit(negative);
    }
    if b.kind.Infinite? { return SignBit(negative); }
    RoundsToItself(right);
    if a.kind.Zero? {
      if b.kind.Zero? { return QUIET_NAN; }
      GridZero(DOUBLE);
      GridIsNearest(DOUBLE, 0);
      return SignBit(negative);
    }
    if b.kind.Zero? { return INFINITY + SignBit(negative); }
    DecomposeSigned(left);
    DecomposeSigned(right);
    Positive(a);
    Positive(b);
    SignsOfProduct(Size(a), Size(b));
    var dividend, dividendExponent := Normalise(a.significand, a.exponent);
    var divisor, divisorExponent := Normalise(b.significand, b.exponent);
    var quotient, remainder := LongDivide(dividend, divisor);
    RatioRepresents(dividend, divisor, dividendExponent, divisorExponent, quotient, remainder);
    bits := Assemble(negative, dividendExponent - divisorExponent - 54, quotient, remainder != 0, Size(a) / Size(b));
  }
}
