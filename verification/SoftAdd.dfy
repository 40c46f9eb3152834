/** Addition and subtraction of doubles from integer operations. */
module SoftAddition {
  import opened Words
  import opened Powers
  import opened FloatGrid
  import opened Assembling

  function Abs(x: real): real { if x < 0.0 then -x else x }

  /** `bits` is the double nearest `x`, ties to even, on the side of zero `x` is. */
  ghost predicate RoundsTo(x: real, bits: u64) {
    && Nearest(DOUBLE, Abs(x), Magnitude(bits))
    && (x > 0.0 ==> !Negative(bits))
    && (x < 0.0 ==> Negative(bits))
  }

  /** What `Decompose` promises of a finite non-zero double. */
  predicate Canonical(p: Parts) {
    && p.kind.Finite?
    && 0 < p.significand < 2 * HIDDEN
    && -1074 <= p.exponent <= 971
    && (p.exponent > -1074 ==> p.significand >= HIDDEN)
  }

  ghost function Size(p: Parts): real { Scaled(p.significand, p.exponent) }

  ghost function Signed(p: Parts): real { if p.negative then -Size(p) else Size(p) }

  lemma DecomposeSigned(bits: u64)
    requires Decompose(bits).kind.Finite?
    ensures Canonical(Decompose(bits)) && Signed(Decompose(bits)) == Value(bits)
  {
    DecomposeValue(bits);
  }

  /** A finite double is nearest to its own value. */
  lemma RoundsToItself(bits: u64)
    requires IsFinite(bits)
    ensures RoundsTo(Value(bits), bits)
    ensures Value(bits) == 0.0 <==> Magnitude(bits) == 0
  {
    hide Grid, Nearest;
    GridIsNearest(DOUBLE, Magnitude(bits));
    GridZero(DOUBLE);
    GridMonotone(DOUBLE, 0, Magnitude(bits));
  }

  // ----- partial results -----

  /** A word shifted right, and whether that drops a one. */
  function Shifted(s: nat, n: nat): nat { QuotientNatural(s, Pow2(n)); s / Pow2(n) }

  predicate Dropped(s: nat, n: nat) { s % Pow2(n) != 0 }

  lemma {:induction false} ShiftDownBy(x: real, e: int, s: nat, n: nat)
    requires Represents(x, e, s, false)
    ensures Represents(x, e + n, Shifted(s, n), Dropped(s, n))
  {
    assert Pow2(0) == 1;
    hide Represents, Pow2;
    if n > 0 {
      ShiftDownBy(x, e, s, n - 1);
      Pow2Next(n - 1);
      var p := Pow2(n - 1);
      ShiftDown(x, e + (n - 1), s / p, s % p != 0);
      HalveAgain(s, p);
    }
  }

  lemma ExactSum(x: real, y: real, e: int, s: nat, t: nat, lost: bool)
    requires Represents(x, e, s, false) && Represents(y, e, t, lost)
    ensures Represents(x + y, e, s + t, lost)
  {
    ScaledAdd(s, t, e);
    ScaledAdd(s, t + 1, e);
  }

  /** Bits lost below the subtrahend borrow a unit and leave a residue. */
  lemma ExactDifference(x: real, y: real, e: int, s: nat, t: nat, lost: bool)
    requires Represents(x, e, s, false) && Represents(y, e, t, lost)
    requires s >= t + (if lost then 1 else 0)
    ensures Represents(x - y, e, s - t - (if lost then 1 else 0), lost)
  {
    var d := s - t;
    ScaledAdd(d, t, e);
    ScaledAdd(d - 1, 1, e);
    ScaledAdd(d, 1, e);
    ScaledAdd(t, 1, e);
    ScaledLess(0, 1, e);
  }

  lemma Exact(s: nat, e: int)
    ensures Represents(Scaled(s, e), e, s, false)
  {
    ScaledStrict(s, s + 1, e);
  }

  lemma ThreeBitsDown(p: Parts)
    ensures Represents(Size(p), p.exponent - 3, 8 * p.significand, false)
  {
    var s, e := p.significand, p.exponent;
    ScaledDouble(s, e - 1);
    ScaledDouble(2 * s, e - 2);
    ScaledDouble(4 * s, e - 3);
    Exact(8 * s, e - 3);
  }

  // ----- aligning -----

  /** The smaller operand in units of the larger one's guard position. */
  method Align(high: Parts, low: Parts) returns (aligned: u64, lost: bool)
    requires Canonical(high) && Canonical(low) && high.exponent >= low.exponent
    ensures Represents(Size(low), high.exponent - 3, aligned, lost)
    ensures high.exponent == low.exponent ==> aligned == 8 * low.significand
    ensures aligned <= 8 * low.significand
    ensures high.exponent > low.exponent ==> aligned <= 4 * low.significand
    ensures lost ==> high.exponent > low.exponent && aligned <= HIDDEN
  {
    hide Represents, Pow2, Shifted, Dropped;
    var shift := high.exponent - low.exponent;
    var extended := low.significand * 8;
    ThreeBitsDown(low);
    ShiftDownBy(Size(low), low.exponent - 3, extended, shift);
    if shift >= 64 {
      aligned, lost := 0, low.significand != 0;
      ShiftedOut(extended, shift);
    } else {
      DropsNothing(low.significand, shift);
      Quotients(extended, shift);
      aligned, lost := Shifted(extended, shift), Dropped(extended, shift);
    }
  }

  lemma ShiftedOut(s: u64, shift: nat)
    requires shift >= 64
    ensures Shifted(s, shift) == 0 && Dropped(s, shift) == (s != 0)
  {
    hide Pow2;
    Pow2Values();
    Pow2Monotone(64, shift);
    DivisionUnique(s, Pow2(shift), 0, s);
  }

  lemma Quotients(s: nat, shift: nat)
    ensures shift == 0 ==> Shifted(s, shift) == s
    ensures shift >= 1 ==> Shifted(s, shift) <= s / 2
    ensures shift >= 4 ==> Shifted(s, shift) <= s / 16
  {
    var p := Pow2(shift);
    if shift >= 1 {
      Pow2Monotone(1, shift);
      assert Pow2(1) == 2;
      DivisorsOrder(s, 2, p);
    }
    if shift >= 4 {
      Pow2Monotone(4, shift);
      assert Pow2(4) == 16;
      DivisorsOrder(s, 16, p);
    }
  }

  lemma DivisorsOrder(s: nat, d: nat, p: nat)
    requires 0 < d <= p
    ensures s / p <= s / d
  {
    Divides(s, p);
    Divides(s, d);
    LargerQuotient(s, d, p, s / p, s % p, s / d, s % d);
  }

  lemma Divides(s: nat, m: nat)
    requires m > 0
    ensures s == m * (s / m) + s % m && 0 <= s % m < m
  {}

  lemma LargerQuotient(s: nat, d: nat, p: nat, q: nat, u: nat, r: nat, v: nat)
    requires d <= p && s == p * q + u && s == d * r + v && v < d
    ensures q <= r
  {
    assert d * (r + 1) == d * r + d;
    if q > r { ProductOrder(d, p, r + 1, q); }
  }

  /** Three extra bits absorb a shift of up to three. */
  lemma DropsNothing(s: nat, shift: nat)
    ensures shift < 4 ==> !Dropped(8 * s, shift)
  {
    assert Pow2(0) == 1 && Pow2(1) == 2 && Pow2(2) == 4 && Pow2(3) == 8;
    hide Pow2;
    EighthsDivide(s);
    assert shift == 0 || shift == 1 || shift == 2 || shift == 3 || shift >= 4;
  }

  lemma EighthsDivide(s: nat)
    ensures (8 * s) % 2 == 0 && (8 * s) % 4 == 0 && (8 * s) % 8 == 0
  {
    DivisionUnique(8 * s, 2, 4 * s, 0);
    DivisionUnique(8 * s, 4, 2 * s, 0);
    DivisionUnique(8 * s, 8, s, 0);
  }

  // ----- adding -----

  /** The operand with the larger magnitude first. */
  function Larger(a: Parts, b: Parts): bool {
    a.exponent > b.exponent || (a.exponent == b.exponent && a.significand >= b.significand)
  }

  method AddFinite(a: Parts, b: Parts) returns (bits: u64)
    requires Canonical(a) && Canonical(b)
    ensures RoundsTo(Signed(a) + Signed(b), bits)
    ensures Signed(a) + Signed(b) == 0.0 ==> bits == 0
  {
    hide Represents, Nearest;
    var high, low := a, b;
    if !Larger(a, b) { high, low := b, a; }
    assert high.exponent > low.exponent ==> high.significand >= HIDDEN;
    var significand: u64 := high.significand * 8;
    var exponent := high.exponent - 3;
    ThreeBitsDown(high);
    Positive(high);
    Positive(low);
    var aligned, lost := Align(high, low);
    if high.negative == low.negative {
      if significand + aligned > U64_MAX { assert false; }
      var sum := significand + aligned;
      ExactSum(Size(high), Size(low), exponent, significand, aligned, lost);
      bits := Assemble(high.negative, exponent, sum, lost, Size(high) + Size(low));
      return;
    }
    var subtrahend := aligned;
    if lost {
      if subtrahend == U64_MAX { assert false; }
      subtrahend := subtrahend + 1;
    }
    if significand < subtrahend { assert false; }
    ExactDifference(Size(high), Size(low), exponent, significand, aligned, lost);
    var difference := significand - subtrahend;
    ghost var x := Size(high) - Size(low);
    SignOf(x, exponent, difference, lost);
    if difference == 0 && !lost {
      ZeroIsNearest(0.0, exponent);
      return 0;
    }
    bits := Assemble(high.negative, exponent, difference, lost, x);
  }

  lemma Positive(p: Parts)
    requires p.significand > 0
    ensures Size(p) > 0.0
  {
    ScaledLess(0, p.significand, p.exponent);
  }

  lemma SignOf(x: real, e: int, s: nat, lost: bool)
    requires Represents(x, e, s, lost)
    ensures x >= 0.0 && (x == 0.0 <==> s == 0 && !lost)
    ensures x == 0.0 ==> Represents(0.0, e, 0, false)
  {
    ScaledLess(0, s, e);
    ScaledLess(0, s + 1, e);
  }

  /** Addition: correctly rounded when both operands are finite, and an exact zero
      is negative only when both operands are. */
  method AddBits(left: u64, right: u64) returns (bits: u64)
    ensures IsNaN(left) || IsNaN(right) ==> bits == QUIET_NAN
    ensures !IsNaN(left) && !IsNaN(right) && !IsFinite(left) && !IsFinite(right) ==> bits == if left == right then left else QUIET_NAN
    ensures !IsNaN(left) && !IsFinite(left) && IsFinite(right) ==> bits == left
    ensures !IsNaN(right) && !IsFinite(right) && IsFinite(left) ==> bits == right
    ensures IsFinite(left) && IsFinite(right) ==> RoundsTo(Value(left) + Value(right), bits)
    ensures IsFinite(left) && IsFinite(right) && Value(left) + Value(right) == 0.0 ==>
      bits == if Negative(left) && Negative(right) then SIGN else 0
  {
    hide Nearest, Grid, Decompose;
    var a, b := Decompose(left), Decompose(right);
    if a.kind.NotANumber? || b.kind.NotANumber? { return QUIET_NAN; }
    if a.kind.Infinite? || b.kind.Infinite? {
      if a.kind.Infinite? && b.kind.Infinite? {
        if a.negative != b.negative { return QUIET_NAN; }
        return left;
      }
      return if a.kind.Infinite? then left else right;
    }
    RoundsToItself(left);
    RoundsToItself(right);
    if a.kind.Zero? && b.kind.Zero? { return if a.negative == b.negative then left else 0; }
    if a.kind.Zero? { return right; }
    if b.kind.Zero? { return left; }
    DecomposeSigned(left);
    DecomposeSigned(right);
    BothNegative(a, b);
    bits := AddFinite(a, b);
  }

  lemma BothNegative(a: Parts, b: Parts)
    requires Canonical(a) && Canonical(b)
    ensures Signed(a) + Signed(b) == 0.0 ==> a.negative != b.negative
  {
    Positive(a);
    Positive(b);
  }

  /** The other sign. */
  function Flipped(bits: u64): (r: u64)
    ensures Magnitude(r) == Magnitude(bits) && Negative(r) != Negative(bits)
  {
    if bits >= SIGN then bits - SIGN else bits + SIGN
  }

  method SubBits(left: u64, right: u64) returns (bits: u64)
    ensures IsNaN(left) || IsNaN(right) ==> bits == QUIET_NAN
    ensures !IsNaN(left) && !IsNaN(right) && !IsFinite(left) && !IsFinite(right) ==> bits == if left == right then QUIET_NAN else left
    ensures !IsNaN(left) && !IsFinite(left) && IsFinite(right) ==> bits == left
    ensures !IsNaN(right) && !IsFinite(right) && IsFinite(left) ==> bits == Flipped(right)
    ensures IsFinite(left) && IsFinite(right) ==> RoundsTo(Value(left) - Value(right), bits)
    ensures IsFinite(left) && IsFinite(right) && Value(left) == Value(right) ==>
      bits == if Negative(left) && !Negative(right) then SIGN else 0
  {
    bits := AddBits(left, Flipped(right));
  }
}
