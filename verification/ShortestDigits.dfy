/** Shortest round-trip digits of a double, computed in fixed-size integers. */
module ShortestDigits {
  import opened Words
  import opened Powers
  import opened Limbs
  import opened FloatGrid
  import opened Assembling
  import opened SoftAddition
  import opened SoftMultiplication
  import opened BigDivision
  import opened DecimalPowers
  import Fixed = FixedIntegers
  import opened ShortestDecimals
  import opened ClosestDecimals

  // ----- room -----

  lemma FitsBelow(n: nat, k: nat)
    requires n <= Pow2(k) && k < 1280
    ensures Fixed.Fits(n)
  {
    hide Pow2, Base;
    BaseIsPow2(40);
    Pow2Monotone(k, 1279);
    Pow2Next(1279);
  }

  datatype Work = Work(num: Fixed.Integer, den: Fixed.Integer, above: Fixed.Integer, below: Fixed.Integer)

  predicate Sound(w: Work) { Fixed.Trimmed(w.num) && Fixed.Trimmed(w.den) && Fixed.Trimmed(w.above) && Fixed.Trimmed(w.below) }

  function View(w: Work): Quad
    requires Sound(w)
  {
    Quad(Fixed.Val(w.num), Fixed.Val(w.den), Fixed.Val(w.above), Fixed.Val(w.below))
  }

  // ----- the fraction to start from -----

  function Begin(s: nat, e: int, boundary: bool): Quad {
    var f := if boundary then 2 else 1;
    if e >= 0 then Quad(s * Pow2(e + 1) * f, 2 * f, Pow2(e) * f, Pow2(e))
    else Quad(s * 2 * f, Pow2(1 - e) * f, f, 1)
  }

  /** The unit the numerator counts: half a place, or a quarter at a boundary. */
  lemma UnitIs(e: int, boundary: bool)
    ensures var f := if boundary then 2 else 1;
            var den: nat, a: nat := if e >= 0 then 2 * f else Pow2(1 - e) * f, if e >= 0 then Pow2(e) else 1;
            Exp2(if boundary then e - 2 else e - 1) * (den as real) == a as real
  {
    hide Exp2, Pow2;
    Exp2Next(e - 1);
    Exp2Next(e - 2);
    if e >= 0 {
      Exp2Up(e);
    } else {
      Exp2Down(1 - e);
      Exp2Down(2 - e);
      Pow2Next(1 - e);
    }
  }

  function Unit(e: int): (a: nat)
    ensures a >= 1
  {
    if e >= 0 then Pow2(e) else 1
  }

  lemma BeginIs(s: nat, e: int, boundary: bool)
    ensures var q, f := Begin(s, e, boundary), if boundary then 2 else 1;
            q.num == 2 * f * s * Unit(e) && q.above == f * Unit(e) && q.below == Unit(e) && q.den > 0
    ensures Exp2(if boundary then e - 2 else e - 1) * (Begin(s, e, boundary).den as real) == Unit(e) as real
  {
    hide Exp2, Pow2;
    UnitIs(e, boundary);
    if e >= 0 {
      Pow2Next(e);
      assert s * (2 * Pow2(e)) * (if boundary then 2 else 1) == 2 * (if boundary then 2 else 1) * s * Pow2(e);
    }
  }

  lemma BeginFrames(s: nat, e: int, boundary: bool)
    requires 0 < s < 2 * HIDDEN && (boundary ==> s == HIDDEN)
    ensures var p := Parts(false, e, s, Finite); Framed(Lower(p, boundary), Upper(p), Begin(s, e, boundary), 0)
  {
    hide Exp2, Ratio10, Begin, Unit;
    BeginIs(s, e, boundary);
    var q, a, f := Begin(s, e, boundary), Unit(e), if boundary then 2 else 1;
    var p := Parts(false, e, s, Finite);
    NumberOrder(s, f, a);
    if boundary {
      Exp2Next(e - 2);
      TwiceThose(2 * s + 1, Exp2(e - 2));
      UnitTimes(4 * s - 1, Exp2(e - 2), q.den, a, Lower(p, boundary), q.num - q.below);
      UnitTimes(4 * s + 2, Exp2(e - 2), q.den, a, Upper(p), q.num + q.above);
    } else {
      UnitTimes(2 * s - 1, Exp2(e - 1), q.den, a, Lower(p, boundary), q.num - q.below);
      UnitTimes(2 * s + 1, Exp2(e - 1), q.den, a, Upper(p), q.num + q.above);
    }
  }

  /** The fraction to start from is the double's own value. */
  lemma BeginValued(s: nat, e: int, boundary: bool)
    ensures Valued(Scaled(s, e), Begin(s, e, boundary), 0)
  {
    hide Exp2, Ratio10, Begin, Unit, Scaled;
    BeginIs(s, e, boundary);
    var q, a := Begin(s, e, boundary), Unit(e);
    ScaledDouble(s, e - 1);
    ScaledDouble(2 * s, e - 2);
    if boundary {
      ScaledIs(2 * (2 * s), e - 2);
      UnitTimes(2 * (2 * s), Exp2(e - 2), q.den, a, Scaled(s, e), q.num);
    } else {
      ScaledIs(2 * s, e - 1);
      UnitTimes(2 * s, Exp2(e - 1), q.den, a, Scaled(s, e), q.num);
    }
  }

  lemma ScaledIs(s: int, e: int)
    ensures Scaled(s, e) == (s as real) * Exp2(e)
  {}

  lemma UnitTimes(n: int, x: real, den: nat, a: nat, y: real, m: int)
    requires x * (den as real) == a as real && y == (n as real) * x && m == n * a
    ensures Ratio10(y, m, den, 0)
  {
    assert Exp10(0) == 1.0;
    hide Exp10;
    assert (n as real) * x * (den as real) == (n as real) * (x * (den as real));
    assert ((n * a) as real) == (n as real) * (a as real);
  }

  lemma NumberOrder(s: nat, f: nat, a: nat)
    requires 0 < s < 2 * HIDDEN && 1 <= f <= 2 && a >= 1 && (f == 2 ==> s == HIDDEN)
    ensures a < 2 * f * s * a <= 2 * HIDDEN * (f * a + a) && a <= f * a
    ensures f == 1 ==> (2 * s - 1) * a == 2 * f * s * a - a && (2 * s + 1) * a == 2 * f * s * a + f * a
    ensures f == 2 ==> (4 * s - 1) * a == 2 * f * s * a - a && (4 * s + 2) * a == 2 * f * s * a + f * a
  {
    ProductOrder(2, 2 * f * s, a, a);
    ProductOrder(2 * f * s, 2 * HIDDEN * (f + 1), a, a);
    Regrouped(2 * HIDDEN, f, 1, a);
  }

  lemma BeginBounds(s: nat, e: int, boundary: bool)
    requires 0 < s < 2 * HIDDEN && -1074 <= e <= 971
    ensures var q := Begin(s, e, boundary);
            q.num <= Pow2(1040) && q.above <= Pow2(1040) && q.below <= Pow2(1040) && q.den <= Pow2(1080)
  {
    hide Pow2;
    Pow2Values();
    TwoOrFour();
    if e >= 0 {
      Pow2Monotone(e, 971);
      Pow2Monotone(e + 1, 972);
      Pow2Sum(53, 972);
      Pow2Next(1025);
      Pow2Next(971);
      Pow2Monotone(1026, 1040);
      Pow2Monotone(972, 1040);
      Pow2Monotone(2, 1080);
      ProductOrder(s, Pow2(53), Pow2(e + 1), Pow2(972));
    } else {
      Pow2Monotone(1 - e, 1075);
      Pow2Next(1075);
      Pow2Monotone(1076, 1080);
      Pow2Next(54);
      Pow2Monotone(55, 1040);
    }
  }

  lemma TwoOrFour()
    ensures Pow2(1) == 2 && Pow2(2) == 4
  {}

  method Setup(significand: u64, exponent: int, boundary: bool) returns (w: Work)
    requires 0 < significand < 2 * HIDDEN && -1074 <= exponent <= 971
    ensures Sound(w) && View(w) == Begin(significand, exponent, boundary)
  {
    hide Pow2, Limbs.Low, Limbs.Base, Fixed.Fits, Fixed.Kept;
    BeginRoom(significand, exponent);
    var num := Fixed.FromU64(significand);
    var den := Fixed.FromU64(1);
    var above := Fixed.FromU64(1);
    var below := Fixed.FromU64(1);
    if exponent >= 0 {
      num := Fixed.ShiftLeft(num, exponent + 1);
      den := Fixed.ShiftLeft(den, 1);
      above := Fixed.ShiftLeft(above, exponent);
      below := Fixed.ShiftLeft(below, exponent);
    } else {
      num := Fixed.ShiftLeft(num, 1);
      den := Fixed.ShiftLeft(den, 1 - exponent);
    }
    if boundary {
      num := Fixed.ShiftLeft(num, 1);
      den := Fixed.ShiftLeft(den, 1);
      above := Fixed.ShiftLeft(above, 1);
    }
    w := Work(num, den, above, below);
  }

  /** Everything the setup computes fits. */
  lemma BeginRoom(s: nat, e: int)
    requires 0 < s < 2 * HIDDEN && -1074 <= e <= 971
    ensures Pow2(1) == 2 && Fixed.Fits(2) && Fixed.Fits(4)
    ensures e >= 0 ==> Fixed.Fits(s * Pow2(e + 1)) && Fixed.Fits(s * Pow2(e + 1) * 2) && Fixed.Fits(Pow2(e)) && Fixed.Fits(Pow2(e) * 2)
    ensures e < 0 ==> Fixed.Fits(s * 2) && Fixed.Fits(s * 2 * 2) && Fixed.Fits(Pow2(1 - e)) && Fixed.Fits(Pow2(1 - e) * 2)
  {
    hide Pow2, Fixed.Fits;
    TwoOrFour();
    BeginBounds(s, e, false);
    BeginBounds(s, e, true);
    Pow2Monotone(2, 1040);
    FitsBelow(2, 1040);
    FitsBelow(4, 1040);
    if e >= 0 {
      FitsBelow(s * Pow2(e + 1), 1040);
      FitsBelow(s * Pow2(e + 1) * 2, 1040);
      FitsBelow(Pow2(e), 1040);
      FitsBelow(Pow2(e) * 2, 1040);
    } else {
      FitsBelow(s * 2, 1040);
      FitsBelow(s * 2 * 2, 1040);
      FitsBelow(Pow2(1 - e), 1080);
      FitsBelow(Pow2(1 - e) * 2, 1080);
    }
  }

  // ----- the decimal exponent -----

  /** The upper boundary within two decades of the estimate. */
  lemma UpperBrackets(s: nat, e: int)
    requires 0 < s < 2 * HIDDEN && -1074 <= e <= 971
    ensures var k := Estimate(e + BitWidth(s));
            Exp10(k - 2) < Scaled(2 * s + 1, e - 1) < Exp10(k + 1)
  {
    hide Exp2, Exp10, Pow2, BitWidth, Scaled, Estimate;
    var w := BitWidth(s);
    Pow2Values();
    if w > 53 { Pow2Monotone(53, w - 1); }
    EstimateBrackets(e + w);
    Pow2Next(w - 1);
    Pow2Next(w);
    RaisedBy(1, e - 1, w + 1);
    RaisedBy(1, e - 1, w);
    ScaledStrict(2 * s + 1, Pow2(w + 1), e - 1);
    ScaledStrict(Pow2(w), 2 * s + 1, e - 1);
    ScaledOne(e + w);
    ScaledOne(e + w - 1);
  }

  lemma ScaledOne(e: int)
    ensures Scaled(1, e) == Exp2(e)
  {}

  /** After scaling by the estimate: between a hundredth and ten. */
  predicate NearOne(q: Quad) { q.den < 100 * (q.num + q.above) && q.num + q.above < 10 * q.den }

  lemma FramedNear(lo: real, hi: real, q: Quad, k: int)
    requires Framed(lo, hi, q, k) && Exp10(k - 2) < hi < Exp10(k + 1)
    ensures NearOne(q)
  {
    assert Pow10(1) == 10 && Pow10(2) == 100;
    hide Exp10, Pow10, Ratio10;
    AgainstPower(hi, q.num + q.above, q.den, k, 1);
    AgainstPower(hi, q.num + q.above, q.den, k, 2);
  }

  lemma FramedFacts(lo: real, hi: real, q: Quad, k: int)
    requires Framed(lo, hi, q, k)
    ensures q.den > 0 && 0 < q.below <= q.above && q.below < q.num && q.num <= 2 * HIDDEN * (q.above + q.below)
  {}

  predicate Bounded(q: Quad) { q.den <= Pow2(1100) }

  /** Bring the fraction to the estimated decade. */
  method ScaleBy(w: Work, k: int, ghost lo: real, ghost x: real, ghost hi: real) returns (w': Work)
    requires Sound(w) && Framed(lo, hi, View(w), 0) && Valued(x, View(w), 0) && Exp10(k - 2) < hi < Exp10(k + 1)
    requires View(w).num <= Pow2(1040) && View(w).above <= Pow2(1040) && View(w).below <= Pow2(1040) && View(w).den <= Pow2(1080)
    ensures Sound(w') && Framed(lo, hi, View(w'), k) && Valued(x, View(w'), k) && NearOne(View(w')) && Bounded(View(w'))
  {
    hide Pow2, Pow10, Exp10, Limbs.Low, Limbs.Base, Fixed.Fits, Framed, NearOne, Valued, Fixed.Kept;
    w' := w;
    ghost var q := View(w);
    if k > 0 {
      FramedDown(lo, hi, q, 0, k);
      ValuedDown(x, q, 0, k);
      FramedNear(lo, hi, ScaledDown(q, Pow10(k)), k);
      DownRoom(q, Pow10(k));
      var den := Fixed.MultiplyPow10(w.den, k);
      w' := w.(den := den);
    } else if k < 0 {
      FramedFacts(lo, hi, q, 0);
      FramedUp(lo, hi, q, 0, -k);
      ValuedUp(x, q, 0, -k);
      FramedNear(lo, hi, ScaledUp(q, Pow10(-k)), k);
      UpRoom(q, Pow10(-k));
      var num := Fixed.MultiplyPow10(w.num, -k);
      var above := Fixed.MultiplyPow10(w.above, -k);
      var below := Fixed.MultiplyPow10(w.below, -k);
      w' := w.(num := num, above := above, below := below);
    } else {
      FramedNear(lo, hi, q, k);
      Pow2Monotone(1080, 1100);
    }
  }

  lemma DownRoom(q: Quad, f: nat)
    requires q.num <= Pow2(1040) && q.above <= Pow2(1040) && NearOne(ScaledDown(q, f))
    ensures Fixed.Fits(q.den * f) && q.den * f <= Pow2(1100)
  {
    hide Pow2, Fixed.Fits;
    TwoHundred(1040);
    Pow2Monotone(1049, 1100);
    FitsBelow(q.den * f, 1100);
  }

  lemma TwoHundred(k: nat)
    ensures 200 * Pow2(k) <= Pow2(k + 9)
  {
    hide Pow2;
    Pow2Of10();
    Pow2Sum(k, 10);
    Pow2Next(k + 9);
  }

  lemma UpRoom(q: Quad, f: nat)
    requires 0 < q.below <= q.above && q.den <= Pow2(1080) && NearOne(ScaledUp(q, f)) && f >= 1
    ensures Fixed.Fits(q.num * f) && Fixed.Fits(q.above * f) && Fixed.Fits(q.below * f) && q.den <= Pow2(1100)
  {
    hide Pow2, Fixed.Fits;
    TwoHundred(1080);
    Pow2Monotone(1089, 1100);
    Pow2Monotone(1080, 1100);
    ProductOrder(q.below, q.above, f, f);
    Products(q, f);
    FitsBelow(q.num * f, 1100);
    FitsBelow(q.above * f, 1100);
    FitsBelow(q.below * f, 1100);
  }

  lemma Products(q: Quad, f: nat)
    ensures q.num * f >= 0 && q.above * f >= 0 && q.below * f >= 0
  {}

  // ----- the first digit -----

  method IsAbove(value: Fixed.Integer, limit: Fixed.Integer, closed: bool) returns (above: bool)
    requires Fixed.Trimmed(value) && Fixed.Trimmed(limit)
    ensures above == Over(Fixed.Val(value), Fixed.Val(limit), closed)
  {
    var order := Fixed.Compare(value, limit);
    above := order == 1 || (order == 0 && closed);
  }

  method IsBelow(value: Fixed.Integer, limit: Fixed.Integer, closed: bool) returns (below: bool)
    requires Fixed.Trimmed(value) && Fixed.Trimmed(limit)
    ensures below == Under(Fixed.Val(value), Fixed.Val(limit), closed)
  {
    var order := Fixed.Compare(value, limit);
    below := order == -1 || (order == 0 && closed);
  }

  lemma Pow2Of10()
    ensures Pow2(10) == 1024
  {
    assert Pow2(5) == 32;
    hide Pow2;
    Pow2Sum(5, 5);
  }

  /** A few times the denominator fits. */
  lemma DenRoom(den: nat, n: nat)
    requires den <= Pow2(1100) && n <= 1100 * den
    ensures Fixed.Fits(n)
  {
    hide Pow2, Fixed.Fits;
    Pow2Of10();
    Pow2Sum(1100, 10);
    Pow2Next(1110);
    FitsBelow(n, 1111);
  }

  /** Move the exponent by one if need be, so that generation does not begin with a zero. */
  method FixExponent(w: Work, k: int, closed: bool, ghost lo: real, ghost x: real, ghost hi: real) returns (w': Work, k': int)
    requires Sound(w) && Framed(lo, hi, View(w), k) && Valued(x, View(w), k) && NearOne(View(w)) && Bounded(View(w))
    ensures Sound(w') && Framed(lo, hi, View(w'), k') && Valued(x, View(w'), k') && Leading(View(w'), closed)
    ensures View(w').den <= 10 * Pow2(1100)
  {
    hide Pow2, Pow10, Limbs.Low, Limbs.Base, Fixed.Fits, Framed, Fixed.Trimmed, Fixed.Val, Valued, Fixed.Kept;
    TenOnce();
    ghost var q := View(w);
    FramedFacts(lo, hi, q, k);
    DenRoom(q.den, q.num + q.above);
    DenRoom(q.den, 10 * q.num + 10 * q.above);
    DenRoom(q.den, 10 * q.num);
    DenRoom(q.den, 10 * q.above);
    DenRoom(q.den, 10 * q.below);
    DenRoom(q.den, 10 * q.den);
    var high := Fixed.AddAssign(w.num, w.above);
    var over := IsAbove(high, w.den, closed);
    if over {
      FramedDown(lo, hi, q, k, 1);
      ValuedDown(x, q, k, 1);
      var den := Fixed.MultiplySmall(w.den, 10);
      w', k' := w.(den := den), k + 1;
      return;
    }
    var scaled := Fixed.MultiplySmall(w.num, 10);
    var aboveScaled := Fixed.MultiplySmall(w.above, 10);
    var scaledHigh := Fixed.AddAssign(scaled, aboveScaled);
    over := IsAbove(scaledHigh, w.den, closed);
    w', k' := w, k;
    if !over {
      FramedUp(lo, hi, q, k, 1);
      ValuedUp(x, q, k, 1);
      var below := Fixed.MultiplySmall(w.below, 10);
      w', k' := Work(scaled, w.den, aboveScaled, below), k - 1;
    }
  }

  // ----- digits -----

  predicate AreDigits(digits: seq<byte>) { forall i :: 0 <= i < |digits| ==> digits[i] < 10 }

  function Number(digits: seq<byte>): nat {
    if digits == [] then 0 else 10 * Number(digits[..|digits| - 1]) + digits[|digits| - 1]
  }

  lemma NumberAppend(digits: seq<byte>, digit: byte)
    ensures Number(digits + [digit]) == 10 * Number(digits) + digit
  {
    assert (digits + [digit])[..|digits|] == digits;
  }

  /** How many times the denominator goes into the numerator, below ten. */
  method TakeDigit(num: Fixed.Integer, den: Fixed.Integer) returns (digit: byte, rest: Fixed.Integer)
    requires Fixed.Trimmed(num) && Fixed.Trimmed(den) && Fixed.Val(num) < 10 * Fixed.Val(den)
    ensures digit < 10 && Fixed.Trimmed(rest) && Fixed.Val(rest) < Fixed.Val(den)
    ensures Fixed.Val(num) == digit * Fixed.Val(den) + Fixed.Val(rest)
  {
    hide Fixed.Val;
    digit, rest := 0, num;
    ghost var n, d := Fixed.Val(num), Fixed.Val(den);
    var order := Fixed.Compare(rest, den);
    while order != -1 && digit < 10
      invariant 0 <= digit <= 10 && Fixed.Trimmed(rest) && n == digit * d + Fixed.Val(rest)
      invariant order == -1 <==> Fixed.Val(rest) < d
      decreases 10 - digit
    {
      rest := Fixed.SubtractAssign(rest, den);
      OnceMore(digit, d);
      digit := digit + 1;
      order := Fixed.Compare(rest, den);
    }
  }

  lemma OnceMore(digit: nat, d: nat)
    ensures (digit + 1) * d == digit * d + d
  {}

  lemma LoopRoom(den: nat, n: nat)
    requires den <= 10 * Pow2(1100) && n <= 100 * den
    ensures Fixed.Fits(n)
  {
    hide Pow2, Fixed.Fits;
    Pow2Of10();
    Pow2Sum(1100, 10);
    FitsBelow(n, 1110);
  }

  /** One more digit of the fraction. */
  method Advance(w: Work, ghost start: Quad, ghost digits: seq<byte>) returns (w': Work, digit: byte)
    requires Sound(w) && Generated(start, View(w), |digits|, Number(digits)) && View(w).den <= 10 * Pow2(1100)
    requires View(w).above <= View(w).den && View(w).below <= View(w).den
    ensures Sound(w') && digit < 10 && View(w').den == View(w).den && View(w').above <= 10 * View(w).den
    ensures Generated(start, View(w'), |digits| + 1, Number(digits + [digit]))
  {
    hide Pow2, Pow10, Fixed.Fits, Fixed.Val, Number, Generated, Fixed.Kept;
    ghost var q := View(w);
    GeneratedFacts(start, q, |digits|, Number(digits));
    LoopRoom(q.den, 10 * q.num);
    LoopRoom(q.den, 10 * q.above);
    LoopRoom(q.den, 10 * q.below);
    var num := Fixed.MultiplySmall(w.num, 10);
    var above := Fixed.MultiplySmall(w.above, 10);
    var below := Fixed.MultiplySmall(w.below, 10);
    var rest;
    digit, rest := TakeDigit(num, w.den);
    w' := Work(rest, w.den, above, below);
    NumberAppend(digits, digit);
    NextDigit(start, q, |digits|, Number(digits), digit, Fixed.Val(rest));
  }

  /** Choose between the last digit and the one above it. */
  method Closer(num: Fixed.Integer, den: Fixed.Integer, low: bool, high: bool, digit: byte) returns (up: bool)
    requires Fixed.Trimmed(num) && Fixed.Trimmed(den) && (low || high)
    requires Fixed.Val(num) < Fixed.Val(den) <= 10 * Pow2(1100)
    ensures up ==> high
    ensures !up ==> low
    ensures low && high ==> (2 * Fixed.Val(num) > Fixed.Val(den) ==> up) && (2 * Fixed.Val(num) < Fixed.Val(den) ==> !up)
    ensures low && high && 2 * Fixed.Val(num) == Fixed.Val(den) ==> (up <==> digit % 2 == 1)
  {
    hide Fixed.Val, Fixed.Fits, Pow2, Fixed.Kept;
    if !(low && high) { return high; }
    LoopRoom(Fixed.Val(den), 2 * Fixed.Val(num));
    var doubled := Fixed.MultiplySmall(num, 2);
    var order := Fixed.Compare(doubled, den);
    up := order == 1 || (order == 0 && digit % 2 == 1);
  }

  /** Generate digits until the interval closes.  `before` is the fraction when it was last open. */
  method Generate(start: Work, closed: bool, ghost lo: real, ghost hi: real, ghost k: int)
    returns (digits: seq<byte>, up: bool, ghost before: Quad, ghost after: Quad)
    requires Sound(start) && Framed(lo, hi, View(start), k) && Leading(View(start), closed) && View(start).den <= 10 * Pow2(1100)
    ensures 0 < |digits| <= 17 && AreDigits(digits)
    ensures Generated(View(start), before, |digits| - 1, Number(digits[..|digits| - 1])) && Open(before, closed)
    ensures Generated(View(start), after, |digits|, Number(digits))
    ensures Chosen(after, closed, up)
    ensures Under(after.num, after.below, closed) && Over(after.num + after.above, after.den, closed) && 2 * after.num == after.den ==>
      (up <==> digits[|digits| - 1] % 2 == 1)
  {
    hide Pow2, Pow10, Fixed.Fits, Fixed.Trimmed, Fixed.Val, Number, Generated, Framed, Leading, Fixed.Kept;
    var w := start;
    digits := [];
    ghost var q0 := View(start);
    FramedFacts(lo, hi, q0, k);
    FirstDigit(q0, closed);
    EmptyNumber();
    while true
      invariant Sound(w) && AreDigits(digits) && View(w).den == q0.den
      invariant Generated(q0, View(w), |digits|, Number(digits)) && Open(View(w), closed)
      invariant |digits| <= 17
      decreases 17 - |digits|
    {
      EnoughDigits(q0, View(w), |digits|, Number(digits), closed);
      before := View(w);
      BelowAbove(q0, before, |digits|, Number(digits));
      var digit;
      w, digit := Advance(w, q0, digits);
      after := View(w);
      GeneratedFacts(q0, after, |digits| + 1, Number(digits + [digit]));
      LoopRoom(after.den, after.num + after.above);
      var low := IsBelow(w.num, w.below, closed);
      var sum := Fixed.AddAssign(w.num, w.above);
      var high := IsAbove(sum, w.den, closed);
      assert (digits + [digit])[..|digits|] == digits;
      digits := digits + [digit];
      if low || high || |digits| >= 24 {
        up := Closer(w.num, w.den, low, high, digit);
        return;
      }
    }
  }

  lemma EmptyNumber()
    ensures Number([]) == 0
  {}

  /** The half-gap below is never the larger one. */
  lemma BelowAbove(start: Quad, q: Quad, j: nat, digits: nat)
    requires Generated(start, q, j, digits) && start.below <= start.above
    ensures q.below <= q.above
  {
    hide Pow10;
    ProductOrder(start.below, start.above, Pow10(j), Pow10(j));
  }

  /** Add one to the last digit, dropping the zeros a carry leaves. */
  method RoundUp(digits: seq<byte>, exponent: int) returns (r: seq<byte>, e: int)
    requires digits != [] && AreDigits(digits)
    ensures 0 < |r| <= |digits| && AreDigits(r) && e - |r| >= exponent - |digits|
    ensures Number(r) * Pow10((e - |r|) - (exponent - |digits|)) == Number(digits) + 1
  {
    hide Pow10, Number;
    var index, n := |digits|, |digits|;
    PowZero();
    assert digits[..n] == digits;
    while true
      invariant 0 <= index <= n && Number(digits) + 1 == (Number(digits[..index]) + 1) * Pow10(n - index)
      decreases index
    {
      if index == 0 {
        OneDigit(1);
        assert digits[..0] == [];
        EmptyNumber();
        return [1], exponent + 1;
      }
      index := index - 1;
      assert digits[..index + 1] == digits[..index] + [digits[index]];
      NumberAppend(digits[..index], digits[index]);
      if digits[index] == 9 {
        CarryOn(Number(digits[..index]), n - index - 1);
        continue;
      }
      r, e := digits[..index] + [digits[index] + 1], exponent;
      NumberAppend(digits[..index], digits[index] + 1);
      return;
    }
  }

  lemma OneDigit(d: byte)
    ensures Number([d]) == d
  {
    assert [d] == [] + [d];
    NumberAppend([], d);
  }

  lemma CarryOn(v: nat, m: nat)
    ensures (10 * v + 9 + 1) * Pow10(m) == (v + 1) * Pow10(m + 1)
  {
    assert Pow10(m + 1) == 10 * Pow10(m);
    hide Pow10;
    assert (10 * (v + 1)) * Pow10(m) == (v + 1) * (10 * Pow10(m));
  }

  // ----- the shortest digits -----

  /** `digits` at `exponent` reads back as the double, and no decimal of fewer digits does. */
  ghost predicate Identifies(digits: seq<byte>, exponent: int, bits: u64) {
    && ReadsBack(Decimal(Number(digits), exponent - |digits|), bits)
    && forall c: nat, t: int :: 10 * c < Pow10(|digits|) ==> !ReadsBack(Decimal(c, t), bits)
  }

  /** Of all decimals of no more digits that read back as the double, none is closer to it. */
  ghost predicate Closest(digits: seq<byte>, exponent: int, bits: u64) {
    forall c: nat, t: int :: c < Pow10(|digits|) && ReadsBack(Decimal(c, t), bits) ==>
      Distance(Decimal(Number(digits), exponent - |digits|), Grid(DOUBLE, Magnitude(bits)))
      <= Distance(Decimal(c, t), Grid(DOUBLE, Magnitude(bits)))
  }

  /** The decimal point is before the first digit; the first digit is not zero. */
  method Shortest(bits: u64) returns (digits: seq<byte>, exponent: int)
    requires Decompose(bits).kind.Finite?
    ensures 0 < |digits| <= 17 && AreDigits(digits) && Identifies(digits, exponent, bits) && Closest(digits, exponent, bits)
    ensures digits[0] != 0
  {
    hide Pow2, Pow10, Number, Generated, Framed, Leading, Begin, Decompose, Estimate, BitWidth, Lower, Upper, Identifies, Closest,
         Decimal, Inside, Scaled, Valued, Chosen, Open, NearOne, Bounded, ReadsBack, Fixed.Trimmed, Fixed.Val;
    var p := Decompose(bits);
    var boundary, closed := Boundary(bits), p.significand % 2 == 0;
    ghost var lo, x, hi := Lower(p, boundary), Scaled(p.significand, p.exponent), Upper(p);
    var w := Setup(p.significand, p.exponent, boundary);
    BeginBounds(p.significand, p.exponent, boundary);
    MagnitudeIs(bits);
    StartFrames(p, boundary);
    BeginValued(p.significand, p.exponent, boundary);
    exponent := Estimate(p.exponent + BitWidth(p.significand));
    w := ScaleBy(w, exponent, lo, x, hi);
    w, exponent := FixExponent(w, exponent, closed, lo, x, hi);
    var up;
    ghost var before, after;
    digits, up, before, after := Generate(w, closed, lo, hi, exponent);
    ChosenInside(lo, hi, View(w), exponent, closed, after, |digits|, Number(digits), up);
    ghost var n := |digits|;
    NoneCloser(bits, View(w), exponent, before, after, n, Number(digits[..n - 1]), Number(digits), up);
    NoneFewer(bits, View(w), exponent, before, n - 1, Number(digits[..n - 1]));
    ghost var d := Decimal(Number(digits) + if up then 1 else 0, exponent - n);
    IntervalReads(bits, d);
    if up {
      ghost var was := exponent;
      digits, exponent := RoundUp(digits, exponent);
      DecimalUp(Number(digits), was - n, (exponent - |digits|) - (was - n));
    }
    Shortened(digits, exponent, n, bits);
    ClosestOfFewer(digits, exponent, n, bits, d);
  }

  lemma ChosenInside(lo: real, hi: real, start: Quad, k: int, closed: bool, q: Quad, n: nat, digits: nat, up: bool)
    requires Framed(lo, hi, start, k) && Generated(start, q, n, digits) && Chosen(q, closed, up)
    ensures Inside(Decimal(digits + if up then 1 else 0, k - n), lo, hi, closed)
  {
    hide Framed, Generated, Inside, Decimal;
    ClosesInside(lo, hi, start, k, closed, q, n, digits);
  }

  /** Nothing of at most `n` digits that reads back is closer than `d`. */
  ghost predicate NearestOf(n: nat, d: real, bits: u64) {
    forall c: nat, t: int :: c < Pow10(n) && ReadsBack(Decimal(c, t), bits) ==>
      Distance(d, Grid(DOUBLE, Magnitude(bits))) <= Distance(Decimal(c, t), Grid(DOUBLE, Magnitude(bits)))
  }

  lemma NoneCloser(bits: u64, start: Quad, k: int, before: Quad, after: Quad, n: nat, value: nat, digits: nat, up: bool)
    requires Decompose(bits).kind.Finite? && n > 0
    requires var p := Decompose(bits);
             && Framed(Lower(p, Boundary(bits)), Upper(p), start, k) && Leading(start, Closed(p))
             && Valued(Scaled(p.significand, p.exponent), start, k)
             && Generated(start, before, n - 1, value) && Open(before, Closed(p))
             && Generated(start, after, n, digits) && Chosen(after, Closed(p), up)
    ensures NearestOf(n, Decimal(digits + if up then 1 else 0, k - n), bits)
  {
    hide Framed, Leading, Generated, Open, Decompose, Lower, Upper, Decimal, ReadsBack, Pow10, Valued, Chosen, Scaled, Grid, Inside;
    DecomposeValue(bits);
    forall c: nat, t: int | c < Pow10(n) && ReadsBack(Decimal(c, t), bits)
      ensures Distance(Decimal(digits + if up then 1 else 0, k - n), Grid(DOUBLE, Magnitude(bits)))
           <= Distance(Decimal(c, t), Grid(DOUBLE, Magnitude(bits)))
    {
      IntervalReads(bits, Decimal(c, t));
      ClosestOfAll(bits, start, k, before, after, n, value, digits, up, c, t);
    }
  }

  lemma ClosestOfFewer(digits: seq<byte>, exponent: int, n: nat, bits: u64, d: real)
    requires |digits| <= n && NearestOf(n, d, bits) && d == Decimal(Number(digits), exponent - |digits|)
    ensures Closest(digits, exponent, bits)
  {
    hide Decimal, Number, Pow10, Power, ReadsBack, Grid;
    Pow10Is(|digits|);
    Pow10Is(n);
    PowerGrows(10, |digits|, n);
  }

  lemma StartFrames(p: Parts, boundary: bool)
    requires p.kind.Finite? && 0 < p.significand < 2 * HIDDEN && -1074 <= p.exponent <= 971 && (boundary ==> p.significand == HIDDEN)
    ensures Framed(Lower(p, boundary), Upper(p), Begin(p.significand, p.exponent, boundary), 0)
    ensures var k := Estimate(p.exponent + BitWidth(p.significand)); Exp10(k - 2) < Upper(p) < Exp10(k + 1)
  {
    hide Framed, Begin, Estimate, BitWidth;
    BeginFrames(p.significand, p.exponent, boundary);
    UpperBrackets(p.significand, p.exponent);
    var q := Parts(false, p.exponent, p.significand, Finite);
    assert Lower(p, boundary) == Lower(q, boundary) && Upper(p) == Upper(q);
  }

  lemma NoneFewer(bits: u64, start: Quad, k: int, before: Quad, j: nat, value: nat)
    requires Decompose(bits).kind.Finite?
    requires var p := Decompose(bits);
             && Framed(Lower(p, Boundary(bits)), Upper(p), start, k) && Leading(start, Closed(p))
             && Generated(start, before, j, value) && Open(before, Closed(p))
    ensures forall c: nat, t: int :: c < Pow10(j) ==> !ReadsBack(Decimal(c, t), bits)
  {
    hide Framed, Leading, Generated, Open, Decompose, Lower, Upper, Decimal, ReadsBack, Pow10;
    var p := Decompose(bits);
    forall c: nat, t: int | c < Pow10(j) ensures !ReadsBack(Decimal(c, t), bits) {
      NoneShorter(Lower(p, Boundary(bits)), Upper(p), start, k, Closed(p), before, j, value, c, t);
      IntervalReads(bits, Decimal(c, t));
    }
  }

  /** Fewer digits than were generated, or than rounding left, cannot do; so the first is not zero. */
  lemma Shortened(digits: seq<byte>, exponent: int, n: nat, bits: u64)
    requires 0 < |digits| <= n && AreDigits(digits)
    requires ReadsBack(Decimal(Number(digits), exponent - |digits|), bits)
    requires forall c: nat, t: int :: c < Pow10(n - 1) ==> !ReadsBack(Decimal(c, t), bits)
    ensures Identifies(digits, exponent, bits) && digits[0] != 0
  {
    var m := |digits|;
    assert Pow10(m) == 10 * Pow10(m - 1);
    Pow10Is(m - 1);
    Pow10Is(n - 1);
    PowerGrows(10, m - 1, n - 1);
    if digits[0] == 0 { LeadingZero(digits, m); }
  }

  lemma {:induction false} LeadingZero(digits: seq<byte>, m: nat)
    requires 0 < m <= |digits| && AreDigits(digits) && digits[0] == 0
    ensures Number(digits[..m]) < Pow10(m - 1) && digits[..|digits|] == digits
    decreases m
  {
    assert digits[..m] == digits[..m - 1] + [digits[m - 1]];
    NumberAppend(digits[..m - 1], digits[m - 1]);
    if m > 1 {
      LeadingZero(digits, m - 1);
      assert Pow10(m - 1) == 10 * Pow10(m - 2);
    } else {
      assert digits[..0] == [];
    }
  }
}
