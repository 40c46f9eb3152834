/** Truncating division of limbed integers, and shifts. */
module BigDivision {
  import opened Words
  import opened Powers
  import opened Limbs
  import opened BigNumbers
  import opened BigProducts

  // ----- by one limb -----

  /** Bit `bit` of a limb. */
  function LimbBit(limb: u32, bit: nat): nat { limb / Pow2(bit) % 2 }

  /** The bits of `limb` from `bit` up have been divided. */
  ghost predicate Dividing(remainder: nat, limb: nat, divisor: nat, bit: nat, q: nat, quotient: nat, rest: nat) {
    && bit <= 32 && rest < divisor && q < Pow2(32 - bit) && quotient == q * Pow2(bit)
    && remainder * Pow2(32 - bit) + limb / Pow2(bit) == q * divisor + rest
  }

  lemma DividingStarts(remainder: nat, limb: u32, divisor: nat)
    requires remainder < divisor
    ensures Dividing(remainder, limb, divisor, 32, 0, 0, remainder)
  {
    hide Pow2;
    Pow2Base();
    Pow2Of32();
    DivisionUnique(limb, Pow2(32), 0, limb);
  }

  lemma DividingEnds(remainder: nat, limb: u32, divisor: nat, q: nat, quotient: nat, rest: nat)
    requires Dividing(remainder, limb, divisor, 0, q, quotient, rest)
    ensures rest < divisor && remainder * LIMB + limb == quotient * divisor + rest
  {
    hide Pow2;
    Pow2Base();
    Pow2Of32();
  }

  /** One more bit: the divisor goes off when it fits. */
  lemma DividingNext(remainder: nat, limb: u32, divisor: nat, bit: nat, q: nat, quotient: nat, rest: nat)
    requires bit < 32 && Dividing(remainder, limb, divisor, bit + 1, q, quotient, rest)
    ensures var v := 2 * rest + LimbBit(limb, bit);
            && 0 <= LimbBit(limb, bit) <= 1 && quotient + Pow2(bit) < LIMB
            && (v < divisor ==> Dividing(remainder, limb, divisor, bit, 2 * q, quotient, v))
            && (v >= divisor ==> Dividing(remainder, limb, divisor, bit, 2 * q + 1, quotient + Pow2(bit), v - divisor))
  {
    hide Pow2;
    Pow2Next(bit);
    Pow2Next(31 - bit);
    Pow2Of32();
    Pow2Sum(32 - bit, bit);
    HalveAgain(limb, Pow2(bit));
    NextBits(remainder, Pow2(31 - bit), q, divisor, Pow2(bit));
    WordRoom(q, Pow2(bit), Pow2(31 - bit));
  }

  lemma NextBits(remainder: nat, c: nat, q: nat, d: nat, p: nat)
    ensures remainder * (2 * c) == 2 * (remainder * c)
    ensures (2 * q) * d == 2 * (q * d) && (2 * q + 1) * d == 2 * (q * d) + d
    ensures q * (2 * p) == (2 * q) * p && (2 * q + 1) * p == (2 * q) * p + p
  {}

  lemma WordRoom(q: nat, p: nat, c: nat)
    requires q < c && (2 * c) * p == LIMB && p > 0
    ensures q * (2 * p) + p < LIMB
  {
    ProductOrder(q + 1, c, 2 * p, 2 * p);
    assert (q + 1) * (2 * p) == q * (2 * p) + 2 * p;
    assert c * (2 * p) == (2 * c) * p;
  }

  /** Two limbs, the high one below the divisor, divided a bit at a time in 32-bit words. */
  method DivideStep(remainder: u32, limb: u32, divisor: u32) returns (quotient: u32, rest: u32)
    requires remainder < divisor
    ensures rest < divisor && remainder * LIMB + limb == quotient * divisor + rest
  {
    hide Pow2, Dividing, LimbBit;
    rest, quotient := remainder, 0;
    var bit := 32;
    ghost var q: nat := 0;
    DividingStarts(remainder, limb, divisor);
    RestBelow(remainder, limb, divisor, bit, q, quotient, rest);
    while bit > 0
      invariant 0 <= bit <= 32 && rest < divisor && Dividing(remainder, limb, divisor, bit, q, quotient, rest)
    {
      bit := bit - 1;
      DividingNext(remainder, limb, divisor, bit, q, quotient, rest);
      var carry := LimbBit(limb, bit);
      var overflowed := rest >= 0x8000_0000;
      var doubled := (rest * 2) % LIMB + carry;
      assert doubled == 2 * rest + carry - if overflowed then LIMB else 0;
      if overflowed || doubled >= divisor {
        rest := if doubled >= divisor then doubled - divisor else doubled - divisor + LIMB;
        quotient := quotient + Pow2(bit);
        q := 2 * q + 1;
      } else {
        rest := doubled;
        q := 2 * q;
      }
      RestBelow(remainder, limb, divisor, bit, q, quotient, rest);
    }
    DividingEnds(remainder, limb, divisor, q, quotient, rest);
  }

  lemma RestBelow(remainder: nat, limb: nat, divisor: nat, bit: nat, q: nat, quotient: nat, rest: nat)
    requires Dividing(remainder, limb, divisor, bit, q, quotient, rest)
    ensures rest < divisor
  {}

  lemma {:induction false} HighAgrees(a: seq<u32>, b: seq<u32>, k: nat, n: nat)
    requires k <= n <= |a| && n <= |b| && forall i :: k <= i < n ==> a[i] == b[i]
    ensures High(a, k, n) == High(b, k, n)
    decreases n - k
  {
    if k < n { HighAgrees(a, b, k + 1, n); }
  }

  /** Divide by one limb; a zero divisor divides nothing. */
  method DivideSmall(v: Number, divisor: u32) returns (r: Number, remainder: u32)
    requires Trimmed(v)
    ensures divisor == 0 ==> r == v && remainder == 0
    ensures divisor > 0 ==> Trimmed(r) && remainder < divisor && Size(v) == Size(r) * divisor + remainder
    ensures divisor > 0 ==> r.negative == (v.negative && Size(r) != 0) && r.length <= v.length
  {
    if divisor == 0 { return v, 0; }
    hide Low, Base, High;
    r, remainder := v, 0;
    var index := v.length;
    NoLimbs(v.limbs, v.length, divisor);
    while index > 0
      invariant 0 <= index <= v.length && remainder < divisor
      invariant Shaped(r) && r.length == v.length && r.negative == v.negative
      invariant forall i :: 0 <= i < index ==> r.limbs[i] == v.limbs[i]
      invariant High(v.limbs, index, v.length) == High(r.limbs, index, v.length) * divisor + remainder
    {
      index := index - 1;
      var quotient, next := DivideStep(remainder, v.limbs[index], divisor);
      HighAgrees(r.limbs, r.limbs[index := quotient], index + 1, v.length);
      HighNext(v.limbs, index, v.length);
      HighNext(r.limbs[index := quotient], index, v.length);
      HighStep(High(v.limbs, index + 1, v.length), High(r.limbs, index + 1, v.length), v.limbs[index], divisor, remainder, quotient, next);
      r := r.(limbs := r.limbs[index := quotient]);
      remainder := next;
    }
    AllLimbs(v.limbs, v.length);
    AllLimbs(r.limbs, v.length);
    r := Trim(r);
  }

  lemma NoLimbs(limbs: seq<u32>, n: nat, d: nat)
    requires n <= |limbs|
    ensures High(limbs, n, n) == High(limbs, n, n) * d
  {}

  lemma AllLimbs(limbs: seq<u32>, n: nat)
    requires n <= |limbs|
    ensures High(limbs, 0, n) == Low(limbs, n)
  {
    LowHigh(limbs, 0, n);
  }

  lemma HighStep(h: nat, g: nat, limb: nat, d: nat, rem: nat, q: nat, r: nat)
    requires h == g * d + rem && rem * LIMB + limb == q * d + r
    ensures limb + LIMB * h == (q + LIMB * g) * d + r
  {
    assert LIMB * (g * d + rem) == (LIMB * g) * d + LIMB * rem;
    assert (q + LIMB * g) * d == q * d + (LIMB * g) * d;
  }

  // ----- bits -----

  /** A limb boundary is a multiple of 32 bits. */
  lemma {:induction false} BaseIsPow2(k: nat)
    ensures Base(k) == Pow2(32 * k)
  {
    if k > 0 {
      BaseIsPow2(k - 1);
      Pow2Of32();
      Pow2Sum(32, 32 * (k - 1));
    } else {
      Pow2Base();
    }
  }

  /** A bit of a number is a bit of one of its limbs. */
  lemma BitInLimb(limbs: seq<u32>, n: nat, k: nat, offset: nat)
    requires k < n <= |limbs| && offset < 32
    ensures Low(limbs, n) / Pow2(32 * k + offset) % 2 == limbs[k] / Pow2(offset) % 2
  {
    hide Low, Base, Pow2, High;
    var above := High(limbs, k + 1, n);
    LowHigh(limbs, k + 1, n);
    LowNext(limbs, k);
    LowBound(limbs, k);
    BaseNext(k);
    BaseIsPow2(k);
    Pow2Sum(32 * k, offset);
    Pow2Sum(offset, 32 - offset);
    Pow2Of32();
    Pow2Next(31 - offset);
    DropLow(Low(limbs, k), Base(k), limbs[k], above, Pow2(offset), Pow2(31 - offset));
  }

  lemma DropLow(low: nat, b: nat, x: nat, above: nat, p: nat, c: nat)
    requires low < b && p > 0 && p * (2 * c) == LIMB
    ensures (low + x * b + (LIMB * b) * above) / (b * p) % 2 == x / p % 2
  {
    var q, r := x / p, x % p;
    assert x == p * q + r;
    DropCore(low, b, q, r, above, p, c);
    EvenMore(q, c * above);
  }

  lemma DropCore(low: nat, b: nat, q: nat, r: nat, above: nat, p: nat, c: nat)
    requires low < b && r < p
    ensures (low + (p * q + r) * b + ((p * (2 * c)) * b) * above) / (b * p) == q + 2 * (c * above)
  {
    var rest, k := r * b + low, q + 2 * (c * above);
    ProductOrder(r + 1, p, b, b);
    assert (r + 1) * b == r * b + b;
    DropAlgebra(b, p, q, r, c, above);
    DivisionUnique((b * p) * k + rest, b * p, k, rest);
  }

  lemma EvenMore(q: nat, k: nat)
    ensures (q + 2 * k) % 2 == q % 2
  {
    DivisionUnique(q + 2 * k, 2, q / 2 + k, q % 2);
  }

  lemma DropAlgebra(b: nat, p: nat, q: nat, r: nat, c: nat, above: nat)
    ensures (p * q + r) * b == (b * p) * q + r * b
    ensures ((p * (2 * c)) * b) * above == (b * p) * (2 * (c * above))
    ensures (b * p) * (q + 2 * (c * above)) == (b * p) * q + (b * p) * (2 * (c * above))
  {
    assert (p * q + r) * b == (p * q) * b + r * b;
    assert (p * q) * b == (b * p) * q;
    assert (p * (2 * c)) * b == (b * p) * (2 * c);
    assert ((b * p) * (2 * c)) * above == (b * p) * ((2 * c) * above);
    assert (2 * c) * above == 2 * (c * above);
  }

  // ----- doubling -----

  method ShiftLeftOne(v: Number) returns (r: Number, ok: bool)
    requires Trimmed(v)
    ensures ok <==> Fits(2 * Size(v))
    ensures ok ==> Trimmed(r) && r.negative == v.negative && Size(r) == 2 * Size(v)
  {
    hide Low, Base;
    r := v;
    var carry: u32, index := 0, 0;
    LowStart(v, v);
    while index < v.length
      invariant 0 <= index <= v.length && 0 <= carry <= 1
      invariant Shaped(r) && r.length == v.length && r.negative == v.negative
      invariant forall i :: index <= i < v.length ==> r.limbs[i] == v.limbs[i]
      invariant Low(r.limbs, index) + carry * Base(index) == 2 * Low(v.limbs, index)
      invariant index > 0 && v.limbs[index - 1] != 0 ==> carry > 0 || r.limbs[index - 1] != 0
    {
      var limb := r.limbs[index];
      var shifted := limb * 2 % LIMB + carry;
      DoubleStep(v.limbs, index, carry, Low(r.limbs, index));
      LowUpdate(r.limbs, index, shifted, index);
      r := r.(limbs := r.limbs[index := shifted]);
      LowNext(r.limbs, index);
      carry := limb / 0x8000_0000;
      index := index + 1;
    }
    ok := true;
    SizeFits(r);
    if carry != 0 {
      AtLeastOne(carry, Base(index));
      r, ok := Push(r, carry);
    }
    if ok { SizeFits(r); }
  }

  /** Doubling a limb: what stays and what leaves it. */
  lemma DoubleParts(x: u32, carry: nat)
    requires carry <= 1
    ensures 2 * x + carry == LIMB * (x / 0x8000_0000) + (x * 2 % LIMB + carry)
    ensures 0 <= x / 0x8000_0000 <= 1 && 0 <= x * 2 % LIMB + carry < LIMB
    ensures x != 0 ==> x / 0x8000_0000 > 0 || x * 2 % LIMB + carry != 0
  {}

  lemma DoubleStep(limbs: seq<u32>, index: nat, carry: nat, low: nat)
    requires index < |limbs| && carry <= 1 && low + carry * Base(index) == 2 * Low(limbs, index)
    ensures var x := limbs[index];
            && x * 2 % LIMB + carry < LIMB && x / 0x8000_0000 <= 1
            && low + (x * 2 % LIMB + carry) * Base(index) + x / 0x8000_0000 * Base(index + 1) == 2 * Low(limbs, index + 1)
            && (x != 0 ==> x / 0x8000_0000 > 0 || x * 2 % LIMB + carry != 0)
  {
    hide Low, Base;
    LowNext(limbs, index);
    BaseNext(index);
    DoubleParts(limbs[index], carry);
    DoubleAlgebra(Base(index), limbs[index], carry, limbs[index] / 0x8000_0000, limbs[index] * 2 % LIMB + carry);
  }

  lemma DoubleAlgebra(b: nat, x: nat, carry: nat, h: nat, s: nat)
    requires 2 * x + carry == LIMB * h + s
    ensures s * b + h * (LIMB * b) == 2 * (x * b) + carry * b
  {
    assert (2 * x + carry) * b == 2 * (x * b) + carry * b;
    assert (LIMB * h + s) * b == s * b + h * (LIMB * b);
  }

  /** Exact scaling up by 2^count, refused when it does not fit. */
  method ShiftLeft(v: Number, count: nat) returns (r: Number, ok: bool)
    requires Trimmed(v)
    ensures ok ==> Trimmed(r) && Int(r) == Int(v) * Pow2(count)
    ensures ok <==> Fits(Int(v) * Pow2(count))
  {
    hide Low, Base, Pow2;
    Pow2Base();
    SizeFits(v);
    r, ok := v, true;
    var turn := 0;
    while turn < count
      invariant 0 <= turn <= count && ok && Trimmed(r) && r.negative == v.negative && Size(r) == Size(v) * Pow2(turn)
    {
      Pow2Next(turn);
      Pow2Monotone(turn + 1, count);
      assert 2 * (Size(v) * Pow2(turn)) == Size(v) * Pow2(turn + 1);
      ProductOrder(Size(v), Size(v), Pow2(turn + 1), Pow2(count));
      SignedProduct(Size(v), Pow2(count));
      r, ok := ShiftLeftOne(r);
      if !ok { return; }
      turn := turn + 1;
    }
    SignedProduct(Size(v), Pow2(count));
    SizeFits(r);
    r := Trim(r);
  }

  // ----- long division -----

  /** Bring down the next bit of the dividend. */
  method BringDown(remainder: Number, one: bool) returns (r: Number, ok: bool)
    requires Trimmed(remainder) && !remainder.negative
    ensures Fits(2 * Size(remainder) + if one then 1 else 0) ==> ok
    ensures ok ==> Trimmed(r) && !r.negative && Size(r) == 2 * Size(remainder) + if one then 1 else 0
  {
    hide Low, Base;
    r, ok := ShiftLeftOne(remainder);
    if ok && one {
      Parity(r);
      SizeIsTotal(r);
      LowReplace(r.limbs, 0, r.limbs[0] + 1, WORK_LIMBS);
      SmallStart(1);
      r := r.(limbs := r.limbs[0 := r.limbs[0] + 1], length := if r.length == 0 then 1 else r.length);
      SizeIsTotal(r);
      TotalIs(r.limbs);
    }
  }

  /** An even number's lowest limb has room for one more. */
  lemma Parity(v: Number)
    requires Shaped(v) && Size(v) % 2 == 0
    ensures v.limbs[0] < LIMB - 1 && Base(0) == 1
  {
    hide High, Low, Base;
    LowStart(v, v);
    SmallStart(1);
    BaseNext(0);
    SizeOf(v, WORK_LIMBS);
    LowHigh(v.limbs, 1, WORK_LIMBS);
    LowNext(v.limbs, 0);
    LowestBit(v.limbs[0], High(v.limbs, 1, WORK_LIMBS));
  }

  lemma LowestBit(x: nat, h: nat)
    ensures (x + LIMB * h) % 2 == x % 2
  {
    DivisionUnique(x + LIMB * h, 2, x / 2 + 0x8000_0000 * h, x % 2);
  }

  /** Set the quotient's bit, which is clear. */
  lemma SetBit(limbs: seq<u32>, bit: nat, q: nat)
    requires |limbs| == WORK_LIMBS && bit < 32 * WORK_LIMBS && Total(limbs) == (2 * q) * Pow2(bit)
    ensures var k, offset := bit / 32, bit % 32;
            && limbs[k] + Pow2(offset) < LIMB
            && Total(limbs[k := limbs[k] + Pow2(offset)]) == (2 * q + 1) * Pow2(bit)
  {
    hide Low, Base, Pow2;
    var k, offset := bit / 32, bit % 32;
    BitInLimb(limbs, WORK_LIMBS, k, offset);
    DivisionUnique(Total(limbs), Pow2(bit), 2 * q, 0);
    assert limbs[k] / Pow2(offset) % 2 == 0;
    Pow2Of32();
    Pow2Sum(offset, 32 - offset);
    Pow2Next(31 - offset);
    ClearBitRoom(limbs[k], Pow2(offset), Pow2(31 - offset));
    LowReplace(limbs, k, limbs[k] + Pow2(offset), WORK_LIMBS);
    BaseIsPow2(k);
    Pow2Sum(32 * k, offset);
    assert (2 * q + 1) * Pow2(bit) == (2 * q) * Pow2(bit) + Pow2(bit);
  }

  lemma ClearBitRoom(x: nat, p: nat, c: nat)
    requires p > 0 && x < p * (2 * c) && x / p % 2 == 0
    ensures x + p < p * (2 * c)
  {
    var q, r := x / p, x % p;
    assert x == p * q + r;
    CancelLess(p, q, 2 * c);
    assert q + 2 <= 2 * c;
    assert p * (q + 2) <= p * (2 * c) by { ProductOrder(p, p, q + 2, 2 * c); }
    assert p * (q + 2) == p * q + 2 * p;
  }

  /** The bits of `n` from `bit` up have been divided by `d`. */
  ghost predicate LongDividing(n: nat, d: nat, bit: nat, q: nat, total: nat, rem: nat) {
    rem < d && n / Pow2(bit) == q * d + rem && total == q * Pow2(bit)
  }

  /** One bit of long division: the next bit comes down, and the divisor goes off if it fits. */
  lemma LongNext(n: nat, d: nat, bit: nat, q: nat, total: nat, rem: nat)
    requires LongDividing(n, d, bit + 1, q, total, rem)
    ensures var b := n / Pow2(bit) % 2;
            && 0 <= b <= 1 && 2 * rem + b <= n && total == (2 * q) * Pow2(bit)
            && (2 * rem + b < d ==> LongDividing(n, d, bit, 2 * q, total, 2 * rem + b))
            && (2 * rem + b >= d ==> LongDividing(n, d, bit, 2 * q + 1, (2 * q + 1) * Pow2(bit), 2 * rem + b - d))
  {
    hide Pow2;
    Pow2Next(bit);
    HalveAgain(n, Pow2(bit));
    NextBits(0, 0, q, d, Pow2(bit));
    QuotientBelow(n, Pow2(bit));
    Nonnegative(q, d);
  }

  lemma Nonnegative(q: nat, d: nat)
    ensures 0 <= q * d
  {}

  lemma QuotientBelow(n: nat, p: nat)
    requires p >= 1
    ensures 0 <= n / p <= n
  {
    QuotientNatural(n, p);
    AtLeastOne(p, n / p);
    assert n == p * (n / p) + n % p;
  }

  /** Magnitudes divided from the highest bit of the dividend down. */
  method DivideLong(left: Number, right: Number) returns (quotient: Number, remainder: Number, ok: bool)
    requires Trimmed(left) && Trimmed(right) && right.length > 0
    ensures ok && Shaped(quotient) && !quotient.negative && Trimmed(remainder) && !remainder.negative
    ensures quotient.length == left.length
    ensures Size(left) == Size(quotient) * Size(right) + Size(remainder) && Size(remainder) < Size(right)
  {
    hide Low, Base, Pow2, Total, LongDividing;
    ghost var n, d, q := Size(left), Size(right), 0;
    var divisor := right.(negative := false);
    quotient, remainder, ok := ZERO.(length := left.length), ZERO, true;
    var bit := left.length * 32;
    LongStart(left, right);
    ZeroStart();
    while bit > 0
      invariant 0 <= bit <= left.length * 32 && ok && q >= 0
      invariant Shaped(quotient) && quotient.length == left.length && !quotient.negative
      invariant Trimmed(remainder) && !remainder.negative
      invariant LongDividing(n, d, bit, q, Total(quotient.limbs), Size(remainder))
    {
      bit := bit - 1;
      var limb, offset := bit / 32, bit % 32;
      LongNext(n, d, bit, q, Total(quotient.limbs), Size(remainder));
      BitInLimb(left.limbs, left.length, limb, offset);
      SizeFits(left);
      remainder, ok := BringDown(remainder, LimbBit(LimbOf(left, limb), offset) == 1);
      var order := CompareMagnitude(remainder, divisor);
      if order != -1 {
        remainder := SubtractMagnitude(remainder, divisor);
        SetBit(quotient.limbs, bit, q);
        quotient := quotient.(limbs := quotient.limbs[limb := quotient.limbs[limb] + Pow2(offset)]);
        q := 2 * q + 1;
      } else {
        q := 2 * q;
      }
    }
    SizeIsTotal(quotient);
    LongEnds(n, d, q, Size(quotient), Size(remainder));
  }

  lemma LongEnds(n: nat, d: nat, q: nat, total: nat, rem: nat)
    requires LongDividing(n, d, 0, q, total, rem)
    ensures n == total * d + rem && rem < d
  {
    hide Pow2;
    Pow2Base();
  }

  lemma LongStart(left: Number, right: Number)
    requires Trimmed(left) && Trimmed(right) && right.length > 0
    ensures LongDividing(Size(left), Size(right), left.length * 32, 0, 0, 0)
  {
    hide Low, Base, Pow2;
    LengthOf(left);
    LengthOf(right);
    BaseIsPow2(left.length);
    DivisionUnique(Size(left), Pow2(left.length * 32), 0, Size(left));
  }

  lemma ZeroStart()
    ensures Total(ZERO.limbs) == 0 && Size(ZERO) == 0
  {
    hide Low, Base;
    LowStart(ZERO, ZERO);
    SizeIsTotal(ZERO);
  }

  // ----- signed division -----

  /** Truncating division: the remainder takes the dividend's sign. */
  ghost predicate Truncates(n: int, d: int, q: int, r: int) {
    && n == q * d + r
    && (if r < 0 then -r else r) < (if d < 0 then -d else d)
    && (r == 0 || (r < 0 <==> n < 0))
  }

  lemma SignsTruncate(n: nat, d: nat, q: nat, r: nat, nn: bool, dn: bool)
    requires n == q * d + r && r < d
    ensures Truncates(if nn then -(n as int) else n, if dn then -(d as int) else d,
                      if nn != dn then -(q as int) else q, if nn then -(r as int) else r)
  {
    SignedProduct(q, d);
    assert q * d >= 0;
  }

  /** Truncating division is determined by what it promises. */
  lemma TruncatesUnique(n: int, d: int, q: int, r: int, q': int, r': int)
    requires Truncates(n, d, q, r) && Truncates(n, d, q', r')
    ensures q == q' && r == r'
  {
    var k, m := q - q', if d < 0 then -d else d;
    assert (q - q') * d == q * d - q' * d;
    Multiples(k, m);
    SignedProduct(k, m);
  }

  lemma Multiples(k: int, m: int)
    requires m > 0
    ensures k >= 1 ==> k * m >= m
    ensures k <= -1 ==> k * m <= -m
  {
    if k >= 1 { assert (k - 1) * m >= 0; }
    if k <= -1 { assert (-k - 1) * m >= 0; }
  }

  /** Giving a magnitude a sign, zero keeping none. */
  lemma SignedInt(v: Number, negative: bool)
    requires Trimmed(v)
    ensures var s: int := Size(v); var w := v.(negative := negative && v.length != 0);
            Trimmed(w) && Int(w) == if negative then -s else s
  {
    hide Base;
  }

  method Divide(left: Number, right: Number) returns (result: Option<(Number, Number)>)
    requires Trimmed(left) && Trimmed(right)
    ensures result.None? <==> Int(right) == 0
    ensures result.Some? ==> Trimmed(result.value.0) && Trimmed(result.value.1)
    ensures result.Some? ==> Truncates(Int(left), Int(right), Int(result.value.0), Int(result.value.1))
  {
    hide Low, Base, Truncates;
    LengthOf(left);
    LengthOf(right);
    if right.length == 0 { return None; }
    var order := CompareMagnitude(left, right);
    if order == -1 {
      SmallQuotient(left, right);
      return Some((ZERO, left.(negative := left.negative && left.length != 0)));
    }
    if right.length == 1 && right.limbs[0] != 0 {
      OneLimb(right);
      var quotient, limb := DivideSmall(left.(negative := false), right.limbs[0]);
      SignsTruncate(Size(left), Size(right), Size(quotient), limb, left.negative, right.negative);
      SignedInt(quotient, left.negative != right.negative);
      quotient := quotient.(negative := left.negative != right.negative && quotient.length != 0);
      var remainder := ZERO;
      LowStart(ZERO, ZERO);
      if limb != 0 {
        remainder := Small(limb, left.negative);
        SmallIs(limb, left.negative);
      }
      return Some((quotient, remainder));
    }
    var quotient, remainder, ok := DivideLong(left, right);
    SignsTruncate(Size(left), Size(right), Size(quotient), Size(remainder), left.negative, right.negative);
    SignedInt(remainder, left.negative);
    quotient := Trim(quotient.(negative := left.negative != right.negative && quotient.length != 0));
    remainder := Trim(remainder.(negative := left.negative && remainder.length != 0));
    result := Some((quotient, remainder));
  }

  lemma SmallQuotient(left: Number, right: Number)
    requires Trimmed(left) && Trimmed(right) && Size(left) < Size(right)
    ensures Int(ZERO) == 0 && left.(negative := left.negative && left.length != 0) == left
    ensures Truncates(Int(left), Int(right), 0, Int(left))
  {
    SignsTruncate(Size(left), Size(right), 0, Size(left), left.negative, right.negative);
  }

  lemma OneLimb(v: Number)
    requires Shaped(v) && v.length == 1
    ensures Size(v) == v.limbs[0]
  {
    LowNext(v.limbs, 0);
  }

  // ----- shifting right -----

  function Small(limb: u32, negative: bool): (v: Number)
    requires limb > 0
    ensures Trimmed(v)
  {
    Number(negative, ZERO.limbs[0 := limb], 1)
  }

  lemma SmallIs(limb: u32, negative: bool)
    requires limb > 0
    ensures Int(Small(limb, negative)) == if negative then -(limb as int) else limb
  {
    OneLimb(Small(limb, negative));
  }

  /** Halving towards negative infinity. */
  method HalveFloor(v: Number, negative: bool) returns (r: Number)
    requires Trimmed(v) && (Int(v) < 0 ==> negative) && (negative ==> Int(v) < 0)
    ensures Trimmed(r) && Int(r) == Int(v) / 2
  {
    hide Low, Base, Truncates;
    SmallIs(2, false);
    SmallIs(1, false);
    var parts := Divide(v, Small(2, false));
    var (quotient, remainder) := parts.value;
    HalfParts(Int(v), Int(quotient), Int(remainder));
    r := quotient;
    LengthOf(remainder);
    if negative && remainder.length != 0 {
      var ok;
      SizeFits(v);
      r, ok := Subtract(r, Small(1, false));
    }
  }

  lemma HalfParts(n: int, q: int, r: int)
    requires Truncates(n, 2, q, r)
    ensures n < 0 && r != 0 ==> q - 1 == n / 2
    ensures n >= 0 || r == 0 ==> q == n / 2
  {}

  /** An arithmetic shift rounds towards negative infinity. */
  method ShiftRight(v: Number, count: nat) returns (r: Number)
    requires Trimmed(v)
    ensures Trimmed(r) && Int(r) == Int(v) / Pow2(count)
  {
    hide Low, Base, Pow2;
    LengthOf(v);
    r := v;
    var turn := 0;
    Pow2Base();
    while turn < count && r.length != 0
      invariant 0 <= turn <= count && Trimmed(r) && Int(r) == Int(v) / Pow2(turn) && (v.negative <==> Int(r) < 0)
    {
      LengthOf(r);
      Pow2Next(turn);
      HalveAgain(Int(v), Pow2(turn));
      r := HalveFloor(r, v.negative);
      turn := turn + 1;
    }
    LengthOf(r);
    if turn < count { ZeroStays(Int(v), turn, count); }
    if v.negative && r.length == 0 { assert false; }
  }

  lemma {:induction false} ZeroStays(n: int, k: nat, count: nat)
    requires k <= count && n / Pow2(k) == 0
    ensures n / Pow2(count) == 0
    decreases count
  {
    hide Pow2;
    if k < count {
      ZeroStays(n, k, count - 1);
      Pow2Next(count - 1);
      HalveAgain(n, Pow2(count - 1));
    }
  }
}
