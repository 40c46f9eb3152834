/** Of the decimals with so few digits that read back as a double, which is closest to it. */
module ClosestDecimals {
  import opened Words
  import opened Powers
  import opened FloatGrid
  import opened Assembling
  import opened DecimalPowers
  import opened ShortestDecimals

  /** The fraction `q` is the value `x`, in units of 10^e. */
  ghost predicate Valued(x: real, q: Quad, e: int) { q.den > 0 && Ratio10(x, q.num, q.den, e) }

  lemma ValuedUp(x: real, q: Quad, e: int, k: nat)
    requires Valued(x, q, e)
    ensures Valued(x, ScaledUp(q, Pow10(k)), e - k)
  {
    RatioUp(x, q.num, q.den, e, k);
  }

  lemma ValuedDown(x: real, q: Quad, e: int, k: nat)
    requires Valued(x, q, e)
    ensures Valued(x, ScaledDown(q, Pow10(k)), e + k)
  {
    hide Pow10, Ratio10;
    RatioDown(x, q.num, q.den, e, k);
    ProductOrder(1, q.den, 1, Pow10(k));
  }

  // ----- decimals of the places generated -----

  /** What has been generated is the decimal at or below the value; the next lies above it. */
  lemma BelowAndAbove(x: real, start: Quad, k: int, q: Quad, n: nat, digits: nat)
    requires Valued(x, start, k) && Generated(start, q, n, digits)
    ensures Decimal(digits, k - n) <= x < Decimal(digits + 1, k - n)
  {
    hide Ratio10, Pow10, Decimal;
    AgainstDecimal(x, start.num, start.den, k, n, digits);
    AgainstDecimal(x, start.num, start.den, k, n, digits + 1);
    OneMoreTimes(digits, q.den);
  }

  /** Which of the two is closer. */
  lemma CloserOfTwo(x: real, start: Quad, k: int, q: Quad, n: nat, digits: nat)
    requires Valued(x, start, k) && Generated(start, q, n, digits)
    ensures var a, b := Decimal(digits, k - n), Decimal(digits + 1, k - n);
            && (2 * q.num <= q.den ==> x - a <= b - x) && (2 * q.num >= q.den ==> x - a >= b - x)
  {
    hide Pow10, Exp10;
    RatioUp(x, start.num, start.den, k, n);
    TwiceFromMiddle(x, digits, q.num, q.den, Exp10(k - n));
  }

  lemma TwiceFromMiddle(x: real, digits: int, num: int, den: int, u: real)
    requires den > 0 && u > 0.0 && x * (den as real) == ((digits * den + num) as real) * u
    ensures var a, b := (digits as real) * u, ((digits + 1) as real) * u;
            && (2 * num <= den ==> x - a <= b - x) && (2 * num >= den ==> x - a >= b - x)
  {
    var d, g, r := den as real, digits as real, num as real;
    var y := x - g * u;
    assert ((digits * den + num) as real) == g * d + r;
    assert (g * u) * d == (g * d) * u;
    assert (g * d + r) * u == (g * d) * u + r * u;
    assert y * d == r * u;
    assert (2.0 * y - u) * d == (2.0 * r - d) * u by { assert (2.0 * y - u) * d == 2.0 * (y * d) - u * d; }
    SameSign(2.0 * y - u, d, 2.0 * r - d, u);
    assert ((digits + 1) as real) * u == g * u + u;
  }

  /** The two ends of the last place: which of them are admissible, and which was taken. */
  ghost predicate Chosen(q: Quad, closed: bool, up: bool) {
    var low, high := Under(q.num, q.below, closed), Over(q.num + q.above, q.den, closed);
    && (up ==> high) && (!up ==> low)
    && (low && high ==> (2 * q.num > q.den ==> up) && (2 * q.num < q.den ==> !up))
  }

  /** No decimal of these places in the interval is closer than the one chosen. */
  lemma ClosestOnGrid(x: real, lo: real, hi: real, start: Quad, k: int, closed: bool, q: Quad, n: nat, digits: nat, up: bool, c: int)
    requires Framed(lo, hi, start, k) && Valued(x, start, k) && Generated(start, q, n, digits) && Chosen(q, closed, up)
    requires Inside(Decimal(c, k - n), lo, hi, closed)
    ensures Distance(Decimal(if up then digits + 1 else digits, k - n), x) <= Distance(Decimal(c, k - n), x)
  {
    hide Valued, Generated, Decimal, Framed;
    EndsAre(lo, hi, start, k, closed, q, n, digits, c);
    BelowAndAbove(x, start, k, q, n, digits);
    CloserOfTwo(x, start, k, q, n, digits);
    if c < digits { DecimalOrder(c, digits, k - n); }
    if digits + 1 < c { DecimalOrder(digits + 1, c, k - n); }
  }

  /** A decimal of these places in the interval puts the end nearer to the value in it. */
  lemma EndsAre(lo: real, hi: real, start: Quad, k: int, closed: bool, q: Quad, n: nat, digits: nat, c: int)
    requires Framed(lo, hi, start, k) && Generated(start, q, n, digits) && Inside(Decimal(c, k - n), lo, hi, closed)
    ensures c <= digits ==> Under(q.num, q.below, closed)
    ensures c > digits ==> Over(q.num + q.above, q.den, closed)
  {
    hide Decimal, Inside;
    AboveStays(start, n);
    InsideIs(lo, hi, start, k, closed, q, n, digits, c);
    BetweenMultiples(c - digits, q.den);
  }

  // ----- decimals of other places -----

  lemma Exp10Grows(a: int, b: int)
    requires a <= b
    ensures Exp10(a) <= Exp10(b)
  {
    hide Exp10, Pow10;
    Exp10Sum(a, b - a);
    var x, p := Exp10(a), Pow10(b - a) as real;
    assert x * (p - 1.0) >= 0.0;
    assert x * p == x * (p - 1.0) + x;
  }

  /** The least subnormal against the power of ten next to it. */
  lemma LeastSubnormal()
    ensures 2.0 * Exp2(-1074) < Exp10(-323) && 10.0 * Exp10(-323) <= 21.0 * Exp2(-1074)
  {
    hide Exp2, Exp10, Pow2, Pow10, Power;
    Pow1074();
    Pow2Is(1074);
    Pow10Is(323);
    Exp2Down(1074);
    Exp10Down(323);
    Crosswise(Exp2(-1074), Exp10(-323), Pow2(1074) as real, Pow10(323) as real);
  }

  lemma Crosswise(u: real, t: real, p: real, q: real)
    requires u > 0.0 && t > 0.0 && u * p == 1.0 && t * q == 1.0 && 2.0 * q < p && 10.0 * p <= 21.0 * q
    ensures 2.0 * u < t && 10.0 * t <= 21.0 * u
  {
    var v := u * t;
    assert v > 0.0;
    assert v * p == t by { assert u * t * p == t * (u * p); }
    assert v * q == u by { assert u * t * q == u * (t * q); }
    assert v * (p - 2.0 * q) > 0.0;
    assert v * (21.0 * q - 10.0 * p) >= 0.0;
  }

  lemma NextPowers(k: int)
    ensures Exp10(k) == Exp10(-323) || 10.0 * Exp10(k) <= Exp10(-323) || Exp10(k) >= 10.0 * Exp10(-323)
  {
    hide Exp10;
    Exp10Next(-324);
    Exp10Next(-323);
    if k < -323 { Exp10Grows(k, -324); }
    if k > -323 { Exp10Grows(-322, k); }
  }

  /** A value below a power of ten, with the power and a decimal of one digit under it
      in one interval: that is twice the least subnormal, and the power is closer. */
  lemma PowerIsCloser(bits: u64, k: int, c: nat, t: int)
    requires Decompose(bits).kind.Finite? && c < 10 && t < k
    requires var p := Decompose(bits);
             && Scaled(p.significand, p.exponent) < Exp10(k) <= Upper(p)
             && Lower(p, Boundary(bits)) <= Decimal(c, t)
    ensures var p := Decompose(bits);
            Exp10(k) - Scaled(p.significand, p.exponent) <= Scaled(p.significand, p.exponent) - Decimal(c, t)
  {
    hide Exp2, Exp10, Decompose, Scaled, Upper, Lower, Decimal;
    var p := Decompose(bits);
    var s, x, y := p.significand, Scaled(p.significand, p.exponent), Decimal(c, t);
    NineTenths(c, t, k);
    MagnitudeIs(bits);
    WideInterval(p, Boundary(bits), Exp10(k), y);
    assert p.exponent == -1074;
    InUnits(p);
    LeastSubnormal();
    NextPowers(k);
    OnlyTwo(s, Exp2(-1074), Exp10(-323), Exp10(k), x, 2.0 * Upper(p));
  }

  lemma SignOf(d: real, u: real)
    requires u > 0.0
    ensures d > 0.0 ==> d * u > 0.0
    ensures d >= 0.0 ==> d * u >= 0.0
  {}

  lemma TimesOrder(a: real, b: real, u: real)
    requires a <= b && u > 0.0
    ensures a * u <= b * u
  {
    SignOf(b - a, u);
    assert (b - a) * u == b * u - a * u;
  }

  lemma NineTenths(c: nat, t: int, k: int)
    requires c < 10 && t < k
    ensures 10.0 * Decimal(c, t) <= 9.0 * Exp10(k)
  {
    hide Exp10;
    Exp10Grows(t, k - 1);
    Exp10Next(k - 1);
    NineAtMost(c as real, Exp10(t), Exp10(k - 1));
  }

  lemma NineAtMost(d: real, x: real, y: real)
    requires d <= 9.0 && 0.0 < x <= y
    ensures d * x <= 9.0 * y
  {
    TimesOrder(d, 9.0, x);
  }

  /** An interval that spans a tenth of its upper end belongs to a significand below ten. */
  lemma WideInterval(p: Parts, boundary: bool, power: real, y: real)
    requires p.significand > 0 && (boundary ==> p.significand >= HIDDEN)
    requires power <= Upper(p) && Lower(p, boundary) <= y && 10.0 * y <= 9.0 * power
    ensures p.significand <= 9
  {
    hide Exp2;
    var s, e := p.significand, p.exponent;
    if boundary {
      Exp2Next(e - 2);
      TwiceThose(2 * s + 1, Exp2(e - 2));
      Spans(4 * s - 1, 4 * s + 2, Exp2(e - 2));
    } else {
      Spans(2 * s - 1, 2 * s + 1, Exp2(e - 1));
    }
  }

  lemma TwiceThose(n: int, x: real)
    ensures (n as real) * (2.0 * x) == ((2 * n) as real) * x
  {
    assert ((2 * n) as real) == 2.0 * (n as real);
  }

  lemma Spans(a: int, b: int, u: real)
    requires u > 0.0 && 10.0 * ((a as real) * u) <= 9.0 * ((b as real) * u)
    ensures 10 * a <= 9 * b
  {
    var d := (10 * a - 9 * b) as real;
    assert d == 10.0 * (a as real) - 9.0 * (b as real);
    assert d * u == 10.0 * ((a as real) * u) - 9.0 * ((b as real) * u);
    SignOf(d, u);
  }

  /** A small subnormal and its upper boundary in units of the least one. */
  lemma InUnits(p: Parts)
    requires p.exponent == -1074 && 0 < p.significand <= 9
    ensures Multiples(p.significand, Exp2(-1074), Scaled(p.significand, p.exponent), 2.0 * Upper(p))
  {
    hide Exp2;
    Exp2Next(-1075);
    MultiplesOf(p.significand, Exp2(-1074));
    TwiceUnits((2 * p.significand + 1) as real, Exp2(-1075), Exp2(-1074));
  }

  lemma TwiceUnits(n: real, x: real, y: real)
    requires y == 2.0 * x
    ensures 2.0 * (n * x) == n * y
  {}

  lemma OnlyTwo(s: nat, u: real, tenth: real, power: real, x: real, h: real)
    requires u > 0.0 && 0 < s <= 9 && Multiples(s, u, x, h) && 2.0 * u < tenth && 10.0 * tenth <= 21.0 * u
    requires x < power && 2.0 * power <= h
    requires power == tenth || 10.0 * power <= tenth || power >= 10.0 * tenth
    ensures s == 2 && power == tenth && 19.0 * power <= 20.0 * x
  {}

  /** What matters of the value and twice its upper boundary, in units `u`. */
  ghost predicate Multiples(s: nat, u: real, x: real, h: real) {
    && u <= x && h <= 19.0 * u && (s >= 3 ==> x >= 3.0 * u) && (s == 2 ==> x == 2.0 * u) && (s == 1 ==> h == 3.0 * u)
  }

  lemma MultiplesOf(s: nat, u: real)
    requires 0 < s <= 9 && u > 0.0
    ensures Multiples(s, u, (s as real) * u, ((2 * s + 1) as real) * u)
  {
    TimesOrder(1.0, s as real, u);
    TimesOrder((2 * s + 1) as real, 19.0, u);
    if s >= 3 { TimesOrder(3.0, s as real, u); }
  }

  // ----- all decimals -----

  /** No decimal of at most the digits generated, at any exponent, reads back and is closer. */
  lemma ClosestOfAll(bits: u64, start: Quad, k: int, before: Quad, after: Quad, n: nat, value: nat, digits: nat, up: bool, c: nat, t: int)
    requires Decompose(bits).kind.Finite? && n > 0 && c < Pow10(n)
    requires var p := Decompose(bits);
             && Framed(Lower(p, Boundary(bits)), Upper(p), start, k) && Leading(start, Closed(p))
             && Valued(Scaled(p.significand, p.exponent), start, k)
             && Generated(start, before, n - 1, value) && Open(before, Closed(p))
             && Generated(start, after, n, digits) && Chosen(after, Closed(p), up)
             && Inside(Decimal(c, t), Lower(p, Boundary(bits)), Upper(p), Closed(p))
    ensures var p := Decompose(bits);
            Distance(Decimal(if up then digits + 1 else digits, k - n), Scaled(p.significand, p.exponent))
            <= Distance(Decimal(c, t), Scaled(p.significand, p.exponent))
  {
    hide Framed, Generated, Decimal, Pow10, Inside, Decompose, Lower, Upper, Scaled, Valued, Chosen, Leading, Open;
    var p := Decompose(bits);
    var lo, hi, x, closed := Lower(p, Boundary(bits)), Upper(p), Scaled(p.significand, p.exponent), Closed(p);
    if t >= k - n {
      var m := t - (k - n);
      DecimalUp(c, k - n, m);
      ClosestOnGrid(x, lo, hi, start, k, closed, after, n, digits, up, c * Pow10(m));
    } else {
      LeadingInside(lo, hi, start, k, closed, c, t, n);
      SmallDecimal(c, t, n, k);
      DecimalUp(1, k - n, n - 1);
      assert 1 * Pow10(n - 1) == Pow10(n - 1);
      ClosestOnGrid(x, lo, hi, start, k, closed, after, n, digits, up, Pow10(n - 1));
      if x < Decimal(1, k - 1) {
        OnlyOneDigit(lo, hi, start, k, closed, before, n, value);
        InsideBounds(c, t, k - 1, lo, hi, closed);
        assert Pow10(1) == 10 by { TenOnce(); }
        PowerIsCloser(bits, k - 1, c, t);
      }
    }
  }

  lemma InsideBounds(c: nat, t: int, k: int, lo: real, hi: real, closed: bool)
    requires Inside(Decimal(c, t), lo, hi, closed) && Inside(Decimal(1, k), lo, hi, closed)
    ensures lo <= Decimal(c, t) && Decimal(1, k) == Exp10(k) <= hi
  {}

  /** The leading power of ten in the interval means that one digit was enough. */
  lemma OnlyOneDigit(lo: real, hi: real, start: Quad, k: int, closed: bool, before: Quad, n: nat, value: nat)
    requires n > 0 && Framed(lo, hi, start, k) && Generated(start, before, n - 1, value) && Open(before, closed)
    requires Inside(Decimal(1, k - 1), lo, hi, closed)
    ensures n == 1
  {
    hide Framed, Generated, Decimal, Pow10, Inside, Open;
    if n > 1 {
      DecimalUp(1, k - (n - 1), n - 2);
      NothingInside(lo, hi, start, k, closed, before, n - 1, value, 1 * Pow10(n - 2));
    }
  }
}
