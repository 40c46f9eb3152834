/** Conversions between doubles, singles and integers. */
module SoftConversion {
  import opened Words
  import opened Powers
  import opened FloatGrid
  import opened Assembling
  import opened SoftAddition
  import opened SoftMultiplication
  import opened SoftRemainder

  const SIGN32: nat := 0x8000_0000
  const HIDDEN32: nat := 0x80_0000
  const INFINITY32: nat := 0x7F80_0000
  const QUIET32: nat := 0x40_0000

  const I64_MIN: int := -0x8000_0000_0000_0000
  const I64_MAX: int := 0x7FFF_FFFF_FFFF_FFFF

  predicate Negative32(bits: u32) { bits >= SIGN32 }

  function Magnitude32(bits: u32): nat { bits % SIGN32 }

  predicate IsNaN32(bits: u32) { Magnitude32(bits) > INFINITY32 }

  function SignBit32(negative: bool): nat { if negative then SIGN32 else 0 }

  // ----- narrowing -----

  /** A word shifted down, to the nearest integer, a half to the even one. */
  function RoundShift(value: u64, shift: nat): nat
    requires shift > 0
  {
    if shift >= 64 then 0 else
      var kept, rest, half := value / Pow2(shift), value % Pow2(shift), Pow2(shift - 1);
      kept + if rest > half || (rest == half && kept % 2 == 1) then 1 else 0
  }

  /** The rounding shift in terms of a round bit and a sticky flag. */
  lemma RoundShiftBits(value: u64, shift: nat)
    requires 0 < shift < 64
    ensures var s, sticky := value / Pow2(shift - 1), value % Pow2(shift - 1) != 0;
            RoundShift(value, shift) == s / 2 + if s % 2 == 1 && (sticky || s / 2 % 2 == 1) then 1 else 0
  {
    hide Pow2;
    Pow2Next(shift - 1);
    TwoBits(value, Pow2(shift - 1));
  }

  lemma TwoBits(value: nat, p: nat)
    requires p > 0
    ensures var s := value / p;
            && value / (2 * p) == s / 2
            && value % (2 * p) == (if s % 2 == 1 then p else 0) + value % p
  {
    var s, r := value / p, value % p;
    assert value == p * s + r;
    var k, b := s / 2, if s % 2 == 1 then p else 0;
    assert p * s == (2 * p) * k + b by {
      if s % 2 == 1 { assert p * (2 * k + 1) == (2 * p) * k + p; } else { assert p * (2 * k) == (2 * p) * k; }
    }
    DivisionUnique(value, 2 * p, k, b + r);
  }

  /** The nearest single, as its bits. */
  function ToF32Bits(bits: u64): (r: u32)
    ensures Negative32(r) == Negative(bits)
  {
    var sign := SignBit32(bits >= SIGN);
    var exponent := (bits / HIDDEN) % 0x800;
    var mantissa := bits % HIDDEN;
    if exponent == 0x7FF then
      var top := mantissa / 0x2000_0000;
      var payload := if mantissa == 0 then 0 else if top >= QUIET32 then top else top + QUIET32;
      sign + INFINITY32 + payload
    else
      var narrowed := exponent - 1023 + 127;
      if narrowed >= 0xFF then sign + INFINITY32
      else if narrowed <= 0 then
        if narrowed < -24 || exponent == 0 then sign
        else SubnormalBound(mantissa + HIDDEN, 30 - narrowed); sign + RoundShift(mantissa + HIDDEN, 29 + 1 - narrowed)
      else FractionBound(mantissa); sign + (narrowed * HIDDEN32 + RoundShift(mantissa, 29))
  }

  lemma SubnormalBound(value: u64, shift: nat)
    requires value < 2 * HIDDEN && 30 <= shift
    ensures 0 <= RoundShift(value, shift) <= HIDDEN32
  {
    if shift < 64 {
      hide Pow2;
      Pow2Of29();
      Pow2Monotone(29, shift - 1);
      DivisorsOrder(value, Pow2(29), Pow2(shift - 1));
      RoundShiftBits(value, shift);
    }
  }

  lemma FractionBound(mantissa: u64)
    requires mantissa < HIDDEN
    ensures 0 <= RoundShift(mantissa, 29) <= HIDDEN32
    ensures RoundShift(mantissa + HIDDEN, 29) == RoundShift(mantissa, 29) + HIDDEN32
  {
    hide Pow2;
    Pow2Of29();
    RoundShiftBits(mantissa, 29);
    RoundShiftBits(mantissa + HIDDEN, 29);
  }

  lemma Pow2Of29()
    ensures Pow2(28) == 0x1000_0000 && Pow2(29) == 0x2000_0000 && Pow2(24) == 2 * HIDDEN32
  {
    assert Pow2(14) == 0x4000;
    Pow2Sum(14, 14);
    Pow2Sum(14, 10);
  }

  /** A normal double's significand at its exponent. */
  lemma NormalParts(bits: u64)
    requires 0 < (bits / HIDDEN) % 0x800 < 0x7FF
    ensures Represents(Abs(Value(bits)), (bits / HIDDEN) % 0x800 - 1075, bits % HIDDEN + HIDDEN, false)
  {
    Fields(bits);
    var m, e, s := Magnitude(bits), (bits / HIDDEN) % 0x800 - 1075, bits % HIDDEN + HIDDEN;
    assert Grid(DOUBLE, m) == Scaled(s, e);
    ScaledPositive(s, e);
    Exact(s, e);
  }

  /** The magnitudes narrowing writes. */
  lemma Patterns(bits: u64)
    ensures var e, mantissa := (bits / HIDDEN) % 0x800, bits % HIDDEN;
            && (896 < e < 896 + 0xFF ==> Magnitude32(ToF32Bits(bits)) == (e - 896) * HIDDEN32 + RoundShift(mantissa, 29))
            && (872 <= e <= 896 ==> Magnitude32(ToF32Bits(bits)) == RoundShift(mantissa + HIDDEN, 926 - e))
  {
    hide RoundShift;
    var e, mantissa := (bits / HIDDEN) % 0x800, bits % HIDDEN;
    FractionBound(mantissa);
    if e <= 896 { SubnormalBound(mantissa + HIDDEN, 926 - e); }
  }

  lemma NarrowNormal(bits: u64)
    requires var e := (bits / HIDDEN) % 0x800; 896 < e < 896 + 0xFF
    ensures Nearest(SINGLE, Abs(Value(bits)), Magnitude32(ToF32Bits(bits)))
  {
    hide Nearest, Pow2, Represents, Value, RoundShift, ToF32Bits;
    var e, mantissa := (bits / HIDDEN) % 0x800, bits % HIDDEN;
    var x, s := Abs(Value(bits)), mantissa + HIDDEN;
    Patterns(bits);
    NormalParts(bits);
    ShiftDownBy(x, e - 1075, s, 28);
    Pow2Of29();
    RoundShiftBits(s, 29);
    FractionBound(mantissa);
    RoundsNearest(SINGLE, x, e - 1075 + 28, s / Pow2(28), s % Pow2(28) != 0);
  }

  lemma NarrowSubnormal(bits: u64)
    requires var e := (bits / HIDDEN) % 0x800; 896 - 24 <= e <= 896
    ensures Nearest(SINGLE, Abs(Value(bits)), Magnitude32(ToF32Bits(bits)))
  {
    hide Nearest, Pow2, Represents, Value, RoundShift, ToF32Bits;
    var e, mantissa := (bits / HIDDEN) % 0x800, bits % HIDDEN;
    Patterns(bits);
    var x, s, shift := Abs(Value(bits)), mantissa + HIDDEN, 30 - (e - 896);
    NormalParts(bits);
    ShiftDownBy(x, e - 1075, s, shift - 1);
    Pow2Of29();
    Pow2Monotone(29, shift - 1);
    DivisorsOrder(s, Pow2(29), Pow2(shift - 1));
    RoundShiftBits(s, shift);
    SubnormalBound(s, shift);
    RoundsNearest(SINGLE, x, e - 1075 + shift - 1, s / Pow2(shift - 1), s % Pow2(shift - 1) != 0);
  }

  /** Too small for half the least single. */
  lemma NarrowTiny(bits: u64)
    requires Magnitude(bits) < 872 * HIDDEN
    ensures Nearest(SINGLE, Abs(Value(bits)), 0)
  {
    hide Nearest, Grid, Scaled, Pow2;
    var m := Magnitude(bits);
    GridZero(DOUBLE);
    GridZero(SINGLE);
    GridMonotone(DOUBLE, 0, m);
    GridMonotone(DOUBLE, m, 872 * HIDDEN);
    Place(DOUBLE, -203, HIDDEN);
    Place(SINGLE, -149, 1);
    Pow2Values();
    RaisedBy(1, -203, 52);
    ScaledDouble(1, -151);
    ScaledDouble(1, -150);
    ScaledDouble(2, -151);
    ScaledLess(1, 4, -151);
    ScaledLess(0, 1, -151);
    ScaledAdd(2, 2, -151);
    ScaledAdd(1, 1, -151);
    NearestLocally(SINGLE, Abs(Value(bits)), 0);
  }

  /** At or past the single's infinity. */
  lemma NarrowHuge(bits: u64)
    requires Magnitude(bits) >= 1151 * HIDDEN
    ensures Nearest(SINGLE, Abs(Value(bits)), INFINITY32)
  {
    hide Nearest, Grid, Scaled, Pow2;
    var m := Magnitude(bits);
    GridZero(DOUBLE);
    GridMonotone(DOUBLE, 0, m);
    GridMonotone(DOUBLE, 1151 * HIDDEN, m);
    Place(DOUBLE, 76, HIDDEN);
    Place(SINGLE, 105, HIDDEN32);
    Pow2Of29();
    RaisedBy(HIDDEN32, 76, 29);
    GridStep(SINGLE, INFINITY32 - 1);
    NearestLocally(SINGLE, Abs(Value(bits)), INFINITY32);
  }

  /** Narrowing a finite double rounds it once, to nearest even, and saturates at infinity. */
  lemma NarrowingRounds(bits: u64)
    requires IsFinite(bits)
    ensures Nearest(SINGLE, Abs(Value(bits)), Magnitude32(ToF32Bits(bits)))
  {
    hide Nearest, Value;
    Fields(bits);
    var e := (bits / HIDDEN) % 0x800;
    if e < 872 {
      NarrowTiny(bits);
    } else if e <= 896 {
      NarrowSubnormal(bits);
    } else if e < 896 + 0xFF {
      NarrowNormal(bits);
    } else {
      NarrowHuge(bits);
    }
  }

  // ----- widening -----

  /** `wide` is the double a single denotes. */
  ghost predicate Widens(bits: u32, wide: u64) {
    && Negative(wide) == Negative32(bits)
    && (Magnitude32(bits) < INFINITY32 ==> IsFinite(wide) && Grid(DOUBLE, Magnitude(wide)) == Grid(SINGLE, Magnitude32(bits)))
    && (Magnitude32(bits) >= INFINITY32 ==> Magnitude(wide) == INFINITY + (Magnitude32(bits) - INFINITY32) * 0x2000_0000)
  }

  /** The fields of a normal double of this power of two. */
  function Widened(power: int, fraction: nat): (m: nat)
    requires fraction < HIDDEN32 && -1022 <= power <= 1023
    ensures 0 < m < INFINITY
  {
    (power + 1023) * HIDDEN + fraction * 0x2000_0000
  }

  lemma Fields32(bits: u32)
    ensures Magnitude32(bits) == (bits / HIDDEN32) % 0x100 * HIDDEN32 + bits % HIDDEN32
  {
    var m := Magnitude32(bits);
    assert bits == m || bits == m + SIGN32;
    if bits == m + SIGN32 { DivisionUnique(bits, HIDDEN32, m / HIDDEN32 + 0x100, m % HIDDEN32); }
  }

  /** A single's significand in a double's fraction. */
  lemma WideFields(fraction: nat, power: int)
    requires fraction < HIDDEN32 && -1022 <= power <= 1023
    ensures Grid(DOUBLE, Widened(power, fraction)) == Scaled(fraction + HIDDEN32, power - 23)
  {
    hide Grid, Scaled, Pow2;
    var s := fraction + HIDDEN32;
    Place(DOUBLE, power - 52, s * 0x2000_0000);
    Pow2Of29();
    RaisedBy(s, power - 52, 29);
  }

  method FromF32Bits(bits: u32) returns (wide: u64)
    ensures Widens(bits, wide)
  {
    hide Scaled, Pow2, Grid, Widened;
    var sign := SignBit(bits >= SIGN32);
    var exponent := (bits / HIDDEN32) % 0x100;
    var mantissa := bits % HIDDEN32;
    Fields32(bits);
    if exponent == 0xFF { return sign + 0x7FF * HIDDEN + mantissa * 0x2000_0000; }
    if exponent == 0 {
      if mantissa == 0 {
        GridZero(DOUBLE);
        GridZero(SINGLE);
        return sign;
      }
      var fraction, power := LeadingBit(mantissa);
      WideFields(fraction, power);
      wide := sign + Widened(power, fraction);
      return;
    }
    WideFields(mantissa, exponent - 127);
    SingleNormal(exponent, mantissa);
    wide := sign + Widened(exponent - 127, mantissa);
  }

  /** Find the leading bit of a subnormal single. */
  method LeadingBit(mantissa: nat) returns (fraction: nat, power: int)
    requires 0 < mantissa < HIDDEN32
    ensures fraction < HIDDEN32 && -150 <= power <= -126
    ensures Scaled(fraction + HIDDEN32, power - 23) == Grid(SINGLE, mantissa)
  {
    hide Scaled, Pow2;
    var significand: nat := mantissa;
    power := -126;
    Pow2Base();
    Pow2Of29();
    while significand < HIDDEN32
      invariant 0 < significand < 2 * HIDDEN32 && power <= -126 && Pow2(-126 - power) <= significand
      invariant Scaled(significand, power - 23) == Scaled(mantissa, -149)
      decreases HIDDEN32 - significand
    {
      ScaledDouble(significand, power - 24);
      Pow2Next(-126 - power);
      significand, power := significand * 2, power - 1;
    }
    if power < -150 { Pow2Monotone(24, -126 - power); }
    fraction := significand % HIDDEN32;
  }

  lemma SingleNormal(exponent: nat, mantissa: nat)
    requires 0 < exponent && mantissa < HIDDEN32
    ensures Grid(SINGLE, exponent * HIDDEN32 + mantissa) == Scaled(mantissa + HIDDEN32, exponent - 150)
  {
    hide Grid, Scaled;
    Place(SINGLE, exponent - 150, mantissa + HIDDEN32);
  }

  /** Narrowing undoes widening, except that it makes a NaN quiet. */
  lemma NarrowingUndoesWidening(bits: u32, wide: u64)
    requires Widens(bits, wide)
    ensures !IsNaN32(bits) ==> ToF32Bits(wide) == bits
    ensures IsNaN32(bits) ==> ToF32Bits(wide) == bits + if bits % HIDDEN32 >= QUIET32 then 0 else QUIET32
  {
    var m := Magnitude32(bits);
    if m < INFINITY32 {
      WidenedFinite(bits, wide);
    } else {
      Fields(wide);
      var mantissa := (m - INFINITY32) * 0x2000_0000;
      DivisionUnique(Magnitude(wide), HIDDEN, 0x7FF, mantissa);
    }
  }

  lemma WidenedFinite(bits: u32, wide: u64)
    requires Widens(bits, wide) && Magnitude32(bits) < INFINITY32
    ensures ToF32Bits(wide) == bits
  {
    hide Grid, Nearest, ToF32Bits;
    NarrowingRounds(wide);
    var m := Magnitude32(bits);
    GridIsNearest(SINGLE, m);
    GridZero(SINGLE);
    GridMonotone(SINGLE, 0, m);
    NearestUnique(SINGLE, Grid(SINGLE, m), m, Magnitude32(ToF32Bits(wide)));
  }

  // ----- integers -----

  /** Integers of 64 signed bits as doubles, correctly rounded. */
  method FromI64(value: int) returns (bits: u64)
    requires I64_MIN <= value <= I64_MAX
    ensures RoundsTo(value as real, bits) && (value == 0 ==> bits == 0)
  {
    hide Nearest, Represents;
    if value == 0 {
      GridZero(DOUBLE);
      GridIsNearest(DOUBLE, 0);
      return 0;
    }
    var negative := value < 0;
    var magnitude := if negative then -value else value;
    Exact(magnitude, 0);
    Units(magnitude);
    bits := Assemble(negative, 0, magnitude, false, magnitude as real);
  }

  lemma Units(n: int)
    ensures Scaled(n, 0) == n as real
  {}

  /** A magnitude cut to its whole part, at most the largest word. */
  function ShiftSignificand(significand: u64, exponent: int): (r: u64)
    requires 0 < significand < 2 * HIDDEN
  {
    if exponent >= 0 then
      if exponent >= 64 || 64 - BitWidth(significand) < exponent then U64_MAX
      else Room(significand, exponent); significand * Pow2(exponent)
    else if -exponent >= 64 then 0
    else significand / Pow2(-exponent)
  }

  function TruncateParts(p: Parts): int
    requires p.kind.Finite? ==> 0 < p.significand < 2 * HIDDEN
  {
    match p.kind
    case Zero => 0
    case NotANumber => 0
    case Infinite => if p.negative then I64_MIN else I64_MAX
    case Finite =>
      var magnitude: int := ShiftSignificand(p.significand, p.exponent);
      if p.negative then if magnitude >= SIGN then I64_MIN else -magnitude
      else if magnitude > I64_MAX then I64_MAX else magnitude
  }

  /** Truncate towards zero, saturating at the ends of the signed range. */
  function ToI64(bits: u64): int { TruncateParts(Decompose(bits)) }

  /** The integer part of a magnitude, cut off at the top of a word. */
  lemma ShiftTruncates(p: Parts)
    requires Canonical(p)
    ensures ShiftSignificand(p.significand, p.exponent) == Min(Size(p).Floor, U64_MAX)
  {
    hide Pow2, BitWidth, Scaled;
    var s, e := p.significand, p.exponent;
    Pow2Values();
    if e >= 0 {
      RaisedBy(s, 0, e);
      Units(Pow2(e) * s);
      assert Pow2(e) * s == s * Pow2(e);
      if e >= 64 {
        Pow2Monotone(64, e);
        ProductOrder(1, s, WORD, Pow2(e));
      } else if 64 - BitWidth(s) < e {
        var w := BitWidth(s);
        Pow2Sum(w - 1, e);
        Pow2Monotone(64, w - 1 + e);
        ProductOrder(Pow2(w - 1), s, Pow2(e), Pow2(e));
      } else {
        Room(s, e);
      }
    } else {
      Exact(s, e);
      ShiftDownBy(Size(p), e, s, -e);
      var q := s / Pow2(-e);
      Units(q);
      Units(q + 1);
      if -e >= 64 {
        Pow2Monotone(64, -e);
        DivisionUnique(s, Pow2(-e), 0, s);
      }
      assert q <= s by { DivisorsOrder(s, 1, Pow2(-e)); }
    }
  }

  /** Conversion to an integer is truncation of the value, clamped to 64 signed bits;
      an infinity is an end of the range and a NaN is zero. */
  lemma ToI64Truncates(bits: u64)
    ensures IsFinite(bits) ==>
              var t := Abs(Value(bits)).Floor;
              ToI64(bits) == if Negative(bits) then Max(-t, I64_MIN) else Min(t, I64_MAX)
    ensures !IsFinite(bits) ==> ToI64(bits) == if IsNaN(bits) then 0 else if Negative(bits) then I64_MIN else I64_MAX
  {
    hide Grid, Decompose, ShiftSignificand, Scaled;
    if IsFinite(bits) { AbsValue(bits); }
    if Decompose(bits).kind.Finite? {
      Positive(Decompose(bits));
      ShiftTruncates(Decompose(bits));
    }
  }
}
