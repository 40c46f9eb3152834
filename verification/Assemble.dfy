/** Taking doubles apart, and assembling a rounded double from a significand. */
module Assembling {
  import opened Words
  import opened Powers
  import opened FloatGrid

  datatype Class = Zero | Finite | Infinite | NotANumber

  datatype Parts = Parts(negative: bool, exponent: int, significand: nat, kind: Class)

  predicate Negative(bits: u64) { bits >= SIGN }

  function Magnitude(bits: u64): nat { bits % SIGN }

  predicate IsNaN(bits: u64) { Magnitude(bits) > INFINITY }

  predicate IsFinite(bits: u64) { Magnitude(bits) < INFINITY }

  /** The real number a finite double denotes. */
  ghost function Value(bits: u64): real {
    if Negative(bits) then -Grid(DOUBLE, Magnitude(bits)) else Grid(DOUBLE, Magnitude(bits))
  }

  function Decompose(bits: u64): (p: Parts)
    ensures p.negative == Negative(bits)
    ensures p.kind.NotANumber? <==> IsNaN(bits)
    ensures p.kind.Infinite? <==> Magnitude(bits) == INFINITY
    ensures p.kind.Zero? <==> Magnitude(bits) == 0
    ensures p.kind.Finite? ==> 0 < p.significand < 2 * HIDDEN && -1074 <= p.exponent <= 971
    ensures p.kind.Finite? && p.exponent > -1074 ==> p.significand >= HIDDEN
  {
    var negative := bits >= SIGN;
    var biased := (bits / HIDDEN) % 0x800;
    var fraction := bits % HIDDEN;
    Fields(bits);
    if biased == 0x7FF then Parts(negative, 0, fraction, if fraction == 0 then Infinite else NotANumber)
    else if biased == 0 then
      if fraction == 0 then Parts(negative, 0, 0, Zero) else Parts(negative, -1074, fraction, Finite)
    else Parts(negative, biased - 1075, fraction + HIDDEN, Finite)
  }

  /** The exponent and fraction fields are the magnitude's quotient and remainder. */
  lemma Fields(bits: u64)
    ensures Magnitude(bits) == (bits / HIDDEN) % 0x800 * HIDDEN + bits % HIDDEN
    ensures Magnitude(bits) / HIDDEN == (bits / HIDDEN) % 0x800 && Magnitude(bits) % HIDDEN == bits % HIDDEN
  {
    assert SIGN == 0x800 * HIDDEN;
    var m := Magnitude(bits);
    assert bits == m || bits == m + SIGN;
    if bits == m + SIGN { DivisionUnique(bits, HIDDEN, m / HIDDEN + 0x800, m % HIDDEN); }
  }

  /** A finite magnitude is its significand at its exponent. */
  lemma DecomposeValue(bits: u64)
    requires Decompose(bits).kind.Finite?
    ensures var p := Decompose(bits); Grid(DOUBLE, Magnitude(bits)) == Scaled(p.significand, p.exponent)
  {
    Fields(bits);
  }

  // ----- partial results -----

  /** `x` is `significand` units of weight 2^exponent, plus a fraction of a unit
      that is there exactly when `sticky`. */
  ghost predicate Represents(x: real, exponent: int, significand: nat, sticky: bool) {
    && Scaled(significand, exponent) <= x < Scaled(significand + 1, exponent)
    && (x == Scaled(significand, exponent) <==> !sticky)
  }

  /** Moving the point right loses nothing when nothing was lost before. */
  lemma ShiftUp(x: real, exponent: int, significand: nat)
    requires Represents(x, exponent, significand, false)
    ensures Represents(x, exponent - 1, 2 * significand, false)
  {
    ScaledDouble(significand, exponent - 1);
    ScaledStrict(2 * significand, 2 * significand + 1, exponent - 1);
  }

  /** Moving the point left keeps what it drops in the sticky flag. */
  lemma ShiftDown(x: real, exponent: int, significand: nat, sticky: bool)
    requires Represents(x, exponent, significand, sticky)
    ensures Represents(x, exponent + 1, significand / 2, sticky || significand % 2 != 0)
  {
    var k, b := significand / 2, significand % 2;
    ScaledDouble(k, exponent);
    ScaledDouble(k + 1, exponent);
    ScaledLess(2 * k, significand, exponent);
    ScaledLess(significand + 1, 2 * k + 2, exponent);
  }

  // ----- rounding -----

  /** The last step: `value` and a round bit, at an exponent the format has. */
  lemma RoundsNearest(f: Format, x: real, exponent: int, significand: nat, sticky: bool)
    requires Proper(f) && Represents(x, exponent, significand, sticky) && exponent >= f.lowest - 1
    requires significand < 4 * f.hidden && (significand >= 2 * f.hidden || exponent == f.lowest - 1)
    ensures var value := significand / 2;
            var up := significand % 2 == 1 && (sticky || value % 2 == 1);
            var m := (exponent + 1 - f.lowest) * f.hidden + value + if up then 1 else 0;
            m >= 0 && Nearest(f, x, Min(m, f.infinity))
  {
    hide Nearest, Grid, Represents, Scaled;
    var value, e := significand / 2, exponent + 1;
    Place(f, e, value);
    Place(f, e, value + 1);
    Midpoint(x, exponent, significand, sticky);
    Parity(f, e - f.lowest, value);
    ChoosesNearest(f, x, (e - f.lowest) * f.hidden + value, significand % 2 == 1, sticky);
  }

  /** Between two neighbours: the round bit and the sticky flag say which is nearer. */
  lemma ChoosesNearest(f: Format, x: real, m: nat, half: bool, sticky: bool)
    requires Proper(f) && Grid(f, m) <= x < Grid(f, m + 1)
    requires !half ==> 2.0 * x < Grid(f, m) + Grid(f, m + 1)
    requires half ==> 2.0 * x >= Grid(f, m) + Grid(f, m + 1) && (2.0 * x == Grid(f, m) + Grid(f, m + 1) <==> !sticky)
    ensures Nearest(f, x, Min(m + (if half && (sticky || m % 2 == 1) then 1 else 0), f.infinity))
  {
    hide Nearest, Grid;
    if m >= f.infinity {
      GridMonotone(f, f.infinity, m);
      GridStep(f, f.infinity - 1);
      NearestLocally(f, x, f.infinity);
    } else if half && (sticky || m % 2 == 1) {
      if m + 1 < f.infinity { GridStep(f, m + 1); }
      NearestLocally(f, x, m + 1);
    } else {
      if m > 0 { GridStep(f, m - 1); } else { GridZero(f); }
      NearestLocally(f, x, m);
    }
  }

  lemma Parity(f: Format, k: int, value: nat)
    requires Proper(f)
    ensures (k * f.hidden + value) % 2 == value % 2
  {
    var half := f.hidden / 2;
    assert k * f.hidden == 2 * (k * half) by { assert f.hidden == 2 * half; }
  }

  /** Where `x` lies between `value` and `value + 1` at twice the weight. */
  lemma Midpoint(x: real, exponent: int, significand: nat, sticky: bool)
    requires Represents(x, exponent, significand, sticky)
    ensures var v, w := Scaled(significand / 2, exponent + 1), Scaled(significand / 2 + 1, exponent + 1);
            && v <= x < w
            && (significand % 2 == 0 ==> 2.0 * x < v + w)
            && (significand % 2 == 1 ==> 2.0 * x >= v + w && (2.0 * x == v + w <==> !sticky))
  {
    var k := significand / 2;
    ScaledDouble(k, exponent);
    ScaledDouble(k + 1, exponent);
    ScaledDouble(2 * k + 1, exponent - 1);
    ScaledAdd(2 * k, 1, exponent);
    ScaledAdd(2 * k + 1, 1, exponent);
    ScaledAdd(2 * k, 2, exponent);
    ScaledAdd(1, 1, exponent);
    ScaledLess(0, 1, exponent);
  }

  // ----- widths -----

  /** Significant bits: 64 less the leading zeros of a 64-bit word. */
  function BitWidth(s: nat): (w: nat)
    ensures s == 0 <==> w == 0
    ensures s > 0 ==> Pow2(w - 1) <= s < Pow2(w)
  {
    if s == 0 then 0 else 1 + BitWidth(s / 2)
  }

  lemma WidthUnique(s: nat, w: nat)
    requires w > 0 && Pow2(w - 1) <= s < Pow2(w)
    ensures BitWidth(s) == w
  {
    var v := BitWidth(s);
    if v < w { Pow2Monotone(v, w - 1); }
    if w < v { Pow2Monotone(w, v - 1); }
  }

  lemma Pow2Values()
    ensures Pow2(52) == HIDDEN && Pow2(53) == 2 * HIDDEN && Pow2(54) == 4 * HIDDEN
    ensures Pow2(64) == 0x1_0000_0000_0000_0000
  {
    assert Pow2(10) == 1024;
    assert Pow2(20) == 1024 * 1024 by { Pow2Sum(10, 10); }
    assert Pow2(40) == 1024 * 1024 * 1024 * 1024 by { Pow2Sum(20, 20); }
    assert Pow2(50) == 1024 * 1024 * 1024 * 1024 * 1024 by { Pow2Sum(40, 10); }
    Pow2Sum(50, 2);
    Pow2Sum(50, 3);
    Pow2Sum(50, 4);
    Pow2Sum(54, 10);
  }

  // ----- assembling -----

  function SignBit(negative: bool): nat { if negative then SIGN else 0 }

  /** Bring a non-zero significand to exactly 54 bits. */
  method ToWidth54(exponent: int, significand: u64, sticky: bool, ghost x: real)
    returns (exponent': int, significand': u64, sticky': bool)
    requires significand > 0 && Represents(x, exponent, significand, sticky)
    requires sticky ==> significand >= 2 * HIDDEN
    ensures Represents(x, exponent', significand', sticky')
    ensures 2 * HIDDEN <= significand' < 4 * HIDDEN
  {
    hide Represents, Pow2, BitWidth;
    Pow2Values();
    exponent', significand', sticky' := exponent, significand, sticky;
    var width := BitWidth(significand);
    assert width < 54 ==> !sticky by { if width < 54 { Pow2Monotone(width, 53); } }
    while width < 54
      invariant width < 54 ==> !sticky'
      invariant width == BitWidth(significand') && significand' > 0
      invariant Represents(x, exponent', significand', sticky')
    {
      ShiftUp(x, exponent', significand');
      Doubling(significand', width);
      significand', exponent', width := significand' * 2, exponent' - 1, width + 1;
    }
    while width > 54
      invariant width >= 54 && width == BitWidth(significand') && significand' > 0
      invariant Represents(x, exponent', significand', sticky')
    {
      ShiftDown(x, exponent', significand', sticky');
      Halving(significand', width);
      sticky' := sticky' || significand' % 2 != 0;
      significand', exponent', width := significand' / 2, exponent' + 1, width - 1;
    }
  }

  lemma Doubling(s: nat, w: nat)
    requires s > 0 && w == BitWidth(s) < 54
    ensures BitWidth(2 * s) == w + 1 && 2 * s < 0x1_0000_0000_0000_0000
  {
    hide Pow2, BitWidth;
    Pow2Next(w);
    Pow2Next(w - 1);
    WidthUnique(2 * s, w + 1);
    Pow2Monotone(w, 53);
    Pow2Values();
  }

  lemma Halving(s: nat, w: nat)
    requires s > 0 && w == BitWidth(s) > 1
    ensures BitWidth(s / 2) == w - 1 && s / 2 > 0
  {
    WidthUnique(s / 2, w - 1);
  }

  /** Round to nearest even and encode.  `x` is the exact magnitude. */
  method Assemble(negative: bool, exponent: int, significand: u64, sticky: bool, ghost x: real) returns (bits: u64)
    requires Represents(x, exponent, significand, sticky)
    requires sticky ==> significand >= 2 * HIDDEN
    ensures Nearest(DOUBLE, x, Magnitude(bits)) && Negative(bits) == negative
  {
    hide Represents, Nearest;
    if significand == 0 && !sticky {
      ZeroIsNearest(x, exponent);
      return SignBit(negative);
    }
    var e, s, lost := ToWidth54(exponent, significand, sticky, x);
    while e < -1075
      invariant 0 <= s < 4 * HIDDEN && (s >= 2 * HIDDEN || e <= -1075)
      invariant Represents(x, e, s, lost)
    {
      ShiftDown(x, e, s, lost);
      lost := lost || s % 2 != 0;
      s, e := s / 2, e + 1;
    }
    RoundsNearest(DOUBLE, x, e, s, lost);
    var value := s / 2;
    e := e + 1;
    ghost var m := (e + 1074) * HIDDEN + value;
    if s % 2 == 1 && (lost || value % 2 == 1) {
      value := value + 1;
      m := m + 1;
      if value >= 2 * HIDDEN { value, e := value / 2, e + 1; }
    }
    bits := Encode(negative, e, value, m);
  }

  /** The bits of `value` at exponent `e`: the magnitude `m`, infinite past the top. */
  method Encode(negative: bool, e: int, value: nat, ghost m: nat) returns (bits: u64)
    requires e >= -1074 && value < 2 * HIDDEN && (value >= HIDDEN || e == -1074) && m == (e + 1074) * HIDDEN + value
    ensures Magnitude(bits) == Min(m, INFINITY) && Negative(bits) == negative
  {
    if value == 0 { return SignBit(negative); }
    var biased := e + 1075;
    if biased >= 0x7FF {
      assert m >= INFINITY by { assert (biased - 1) * HIDDEN >= 0x7FE * HIDDEN; }
      return SignBit(negative) + INFINITY;
    }
    var magnitude := if value < HIDDEN then value else value % HIDDEN + biased * HIDDEN;
    assert magnitude == m < INFINITY by { assert biased * HIDDEN <= 0x7FE * HIDDEN; }
    bits := SignBit(negative) + magnitude;
  }

  lemma ZeroIsNearest(x: real, exponent: int)
    requires Represents(x, exponent, 0, false)
    ensures Nearest(DOUBLE, x, 0)
  {
    GridZero(DOUBLE);
    GridIsNearest(DOUBLE, 0);
  }
}
