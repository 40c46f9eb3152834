/** Products of limbed integers, and products and sums with one limb. */
module BigProducts {
  import opened Words
  import opened Powers
  import opened Limbs
  import opened BigNumbers

  /** All the limbs as one number. */
  function Total(limbs: seq<u32>): nat { Low(limbs, |limbs|) }

  lemma {:induction false} LowReplace(limbs: seq<u32>, at: nat, x: u32, n: nat)
    requires at < n <= |limbs|
    ensures Low(limbs[at := x], n) == Low(limbs, n) + (x - limbs[at]) * Base(at)
    decreases n
  {
    if at < n - 1 {
      LowReplace(limbs, at, x, n - 1);
    } else {
      LowUpdate(limbs, at, x, at);
      LowNext(limbs, at);
      LowNext(limbs[at := x], at);
      assert (x - limbs[at]) * Base(at) == x * Base(at) - limbs[at] * Base(at);
    }
  }

  /** Adding `p` in place of limb `at`, the part over a limb carried. */
  lemma PutAndCarry(limbs: seq<u32>, at: nat, p: nat)
    requires at < |limbs|
    ensures Total(limbs[at := p % LIMB]) + p / LIMB * Base(at + 1) == Total(limbs) + (p - limbs[at]) * Base(at)
  {
    hide Low, Base;
    var b: int, x := Base(at), limbs[at];
    LowReplace(limbs, at, p % LIMB, |limbs|);
    BaseNext(at);
    CarryStep(Base(at), p, 0, p * b);
    assert (p % LIMB - x) * b == p % LIMB * b - x * b && (p - x) * b == p * b - x * b;
  }

  /** A product of limbs, and two limbs more, fit a double limb. */
  lemma LimbProduct(x: u32, y: u32, z: u32, c: u32, p: nat)
    requires p == x * y + z + c
    ensures 0 <= p / LIMB < LIMB
  {
    var xy := x * y;
    ProductOrder(x, LIMB - 1, y, LIMB - 1);
    assert p < LIMB * LIMB;
    DivideBelow(p, LIMB);
  }

  lemma DivideBelow(p: nat, m: nat)
    requires p < LIMB * m
    ensures 0 <= p / LIMB < m
  {
    var q, r := p / LIMB, p % LIMB;
    assert p == LIMB * q + r;
    CancelLess(LIMB, q, m);
  }

  /** Limbs from `k` on are zero. */
  predicate ClearFrom(limbs: seq<u32>, k: nat) { forall i :: k <= i < |limbs| ==> limbs[i] == 0 }

  /** Add `x` times `right` at limb `index`; what runs over is the carry. */
  method AddRow(limbs: seq<u32>, x: u32, right: Number, index: nat) returns (r: seq<u32>, carry: u32)
    requires |limbs| == WORK_LIMBS && Shaped(right) && index + right.length <= WORK_LIMBS
    requires ClearFrom(limbs, index + right.length)
    ensures |r| == WORK_LIMBS && ClearFrom(r, index + right.length)
    ensures Total(r) + carry * Base(index + right.length) == Total(limbs) + x * Size(right) * Base(index)
  {
    hide Low, Base, Total;
    r, carry := limbs, 0;
    var other := 0;
    RowStart(right, x, Base(index));
    while other < right.length
      invariant 0 <= other <= right.length && |r| == WORK_LIMBS && ClearFrom(r, index + right.length)
      invariant Total(r) + carry * Base(index + other) == Total(limbs) + x * Low(right.limbs, other) * Base(index)
    {
      var at := index + other;
      var product := x * right.limbs[other] + r[at] + carry;
      LimbProduct(x, right.limbs[other], r[at], carry, product);
      PutAndCarry(r, at, product);
      RowStep(right.limbs, other, x, index, carry);
      assert (product - r[at]) == x * right.limbs[other] + carry;
      r := r[at := product % LIMB];
      carry := product / LIMB;
      other := other + 1;
    }
  }

  lemma RowStart(right: Number, x: nat, b: nat)
    requires Shaped(right)
    ensures x * Low(right.limbs, 0) * b == 0
  {}

  lemma RowStep(limbs: seq<u32>, other: nat, x: nat, index: nat, carry: nat)
    requires other < |limbs|
    ensures x * Low(limbs, other + 1) * Base(index)
         == x * Low(limbs, other) * Base(index) + (x * limbs[other] + carry) * Base(index + other) - carry * Base(index + other)
  {
    LowNext(limbs, other);
    BaseSum(index, other);
    hide Low, Base;
    RowAlgebra(x, Low(limbs, other), limbs[other], Base(other), Base(index), carry);
  }

  lemma RowAlgebra(x: nat, low: nat, y: nat, bo: nat, bi: nat, c: nat)
    ensures x * (low + y * bo) * bi == x * low * bi + (x * y + c) * (bi * bo) - c * (bi * bo)
  {
    assert x * (low + y * bo) == x * low + x * (y * bo);
    assert (x * low + x * (y * bo)) * bi == x * low * bi + x * (y * bo) * bi;
    assert x * (y * bo) * bi == (x * y) * (bi * bo);
    assert (x * y + c) * (bi * bo) == (x * y) * (bi * bo) + c * (bi * bo);
  }

  /** Carry a row's overflow into the limbs above it. */
  method AddCarry(limbs: seq<u32>, at: nat, carry: u32, ghost top: nat) returns (r: seq<u32>, ok: bool)
    requires |limbs| == WORK_LIMBS && ClearFrom(limbs, at) && at <= top <= WORK_LIMBS
    requires Total(limbs) + carry * Base(at) < Base(top)
    ensures ok && |r| == WORK_LIMBS && ClearFrom(r, top)
    ensures Total(r) == Total(limbs) + carry * Base(at)
  {
    hide Low, Base, Total;
    r, ok := limbs, true;
    var c, a := carry, at;
    while c != 0
      invariant at <= a <= top && |r| == WORK_LIMBS && ClearFrom(r, a) && 0 <= c < LIMB
      invariant Total(r) + c * Base(a) == Total(limbs) + carry * Base(at)
      decreases if c != 0 then 1 else 0
    {
      CarryInside(c, a, top, Total(r));
      if a >= WORK_LIMBS { return r, false; }
      var sum := r[a] + c;
      PutAndCarry(r, a, sum);
      assert sum - r[a] == c;
      r := r[a := sum % LIMB];
      c := sum / LIMB;
      a := a + 1;
    }
  }

  lemma CarryInside(c: nat, a: nat, top: nat, total: nat)
    requires total + c * Base(a) < Base(top) && c > 0
    ensures a < top
  {
    hide Base;
    AtLeastOne(c, Base(a));
    if a >= top { BaseMonotone(top, a); }
  }

  /** Multiplication is exact, refused when the lengths together exceed the working limbs. */
  method Multiply(left: Number, right: Number) returns (r: Number, ok: bool)
    requires Trimmed(left) && Trimmed(right)
    ensures ok <==> left.length == 0 || right.length == 0 || left.length + right.length <= WORK_LIMBS
    ensures ok ==> Trimmed(r) && Int(r) == Int(left) * Int(right)
  {
    hide Low, Base, Total;
    LengthOf(left);
    LengthOf(right);
    LowStart(ZERO, left);
    if left.length == 0 || right.length == 0 { return ZERO, true; }
    if left.length + right.length > WORK_LIMBS { return ZERO, false; }
    var limbs := ZERO.limbs;
    var index := 0;
    ProductStart(right);
    while index < left.length
      invariant 0 <= index <= left.length && |limbs| == WORK_LIMBS && ClearFrom(limbs, index + right.length)
      invariant Total(limbs) == Low(left.limbs, index) * Size(right)
    {
      ghost var before := Total(limbs);
      var carry;
      limbs, carry := AddRow(limbs, left.limbs[index], right, index);
      RowSum(left, right, index, before);
      limbs, ok := AddCarry(limbs, index + right.length, carry, index + 1 + right.length);
      index := index + 1;
    }
    r := Number(left.negative != right.negative, limbs, left.length + right.length);
    SizeOf(r, WORK_LIMBS);
    TotalIs(limbs);
    SignedProduct(Size(left), Size(right));
    r := Trim(r);
    ok := true;
  }

  lemma TotalIs(limbs: seq<u32>)
    ensures Total(limbs) == Low(limbs, |limbs|)
  {}

  lemma SignedProduct(x: int, y: int)
    ensures (-x) * y == -(x * y) && x * (-y) == -(x * y) && (-x) * (-y) == x * y
  {}

  lemma ProductStart(right: Number)
    requires Shaped(right)
    ensures Total(ZERO.limbs) == 0 == Low(ZERO.limbs, 0) * Size(right)
  {
    hide Low, Base;
    LowStart(ZERO, ZERO);
    LowZeros(ZERO.limbs, 0, WORK_LIMBS);
  }

  lemma RowSum(left: Number, right: Number, index: nat, before: nat)
    requires Shaped(left) && Shaped(right) && index < left.length && before == Low(left.limbs, index) * Size(right)
    ensures before + left.limbs[index] * Size(right) * Base(index) == Low(left.limbs, index + 1) * Size(right)
    ensures Low(left.limbs, index + 1) * Size(right) < Base(index + 1 + right.length)
  {
    hide Low, Base;
    LowNext(left.limbs, index);
    LowBound(left.limbs, index + 1);
    LowBound(right.limbs, right.length);
    BaseSum(index + 1, right.length);
    RowDistributes(Low(left.limbs, index), left.limbs[index], Base(index), Size(right));
    ProductBelow(Low(left.limbs, index + 1), Base(index + 1), Size(right), Base(right.length));
  }

  lemma RowDistributes(low: nat, x: nat, b: nat, s: nat)
    ensures low * s + x * s * b == (low + x * b) * s
  {
    assert (low + x * b) * s == low * s + (x * b) * s;
    assert (x * b) * s == x * s * b;
  }

  lemma ProductBelow(a: nat, b: nat, c: nat, d: nat)
    requires a < b && c < d
    ensures a * c < b * d
  {
    ProductOrder(a, b - 1, c, d - 1);
    assert (b - 1) * (d - 1) == b * d - b - d + 1;
  }

  // ----- one limb -----

  function Product(x: u32, factor: u32, carry: u32): nat { x * factor + carry }

  /** The first `n` limbs times a factor; what runs over is the carry. */
  method ScaleLimbs(limbs: seq<u32>, n: nat, factor: u32) returns (r: seq<u32>, carry: u32)
    requires n <= |limbs|
    ensures |r| == |limbs| && forall i :: n <= i < |limbs| ==> r[i] == limbs[i]
    ensures Low(r, n) + carry * Base(n) == Low(limbs, n) * factor
    ensures factor > 0 && n > 0 && limbs[n - 1] != 0 ==> carry > 0 || r[n - 1] != 0
    ensures factor == 0 ==> carry == 0
  {
    hide Low, Base, Product;
    r, carry := limbs, 0;
    var index := 0;
    LowEmpty(limbs, factor);
    while index < n
      invariant 0 <= index <= n && (carry < factor || carry == 0) && |r| == |limbs|
      invariant forall i :: index <= i < |limbs| ==> r[i] == limbs[i]
      invariant Low(r, index) + carry * Base(index) == Low(limbs, index) * factor
      invariant factor > 0 && index > 0 && limbs[index - 1] != 0 ==> carry > 0 || r[index - 1] != 0
    {
      var product := Product(r[index], factor, carry);
      SmallStep(limbs, index, factor, carry, Low(r, index));
      SmallCarry(limbs[index], factor, carry);
      LowUpdate(r, index, product % LIMB, index);
      r := r[index := product % LIMB];
      LowNext(r, index);
      carry := product / LIMB;
      index := index + 1;
    }
  }

  lemma LowEmpty(limbs: seq<u32>, factor: nat)
    ensures Low(limbs, 0) == 0 == Low(limbs, 0) * factor
  {}

  method MultiplySmall(v: Number, factor: u32) returns (r: Number, ok: bool)
    requires Trimmed(v)
    ensures ok <==> Fits(Size(v) * factor)
    ensures ok ==> Shaped(r) && r.negative == v.negative && Size(r) == Size(v) * factor
    ensures ok && factor > 0 ==> Trimmed(r)
  {
    hide Low, Base;
    var limbs, carry := ScaleLimbs(v.limbs, v.length, factor);
    r, ok := v.(limbs := limbs), true;
    SizeFits(r);
    while carry != 0
      invariant ok && 0 <= carry < LIMB && Shaped(r) && r.negative == v.negative && Fits(Size(r))
      invariant factor > 0 && carry == 0 ==> Trimmed(r)
      invariant Size(r) + carry * Base(r.length) == Size(v) * factor
      decreases carry
    {
      AtLeastOne(carry, Base(r.length));
      r, ok := Push(r, carry % LIMB);
      if !ok { return; }
      SizeFits(r);
      carry := carry / LIMB;
    }
  }

  lemma SmallStep(limbs: seq<u32>, index: nat, factor: u32, carry: u32, low: nat)
    requires index < |limbs| && low + carry * Base(index) == Low(limbs, index) * factor
    ensures var p := Product(limbs[index], factor, carry);
            low + p % LIMB * Base(index) + p / LIMB * Base(index + 1) == Low(limbs, index + 1) * factor
  {
    hide Low, Base;
    LowNext(limbs, index);
    BaseNext(index);
    var x, b, l := limbs[index], Base(index), Low(limbs, index);
    ScaleAlgebra(l, x, b, factor, carry);
    CarryStep(b, x * factor + carry, low, (l + x * b) * factor);
  }

  lemma ScaleAlgebra(l: nat, x: nat, b: nat, f: nat, c: nat)
    ensures (l + x * b) * f == l * f + (x * f + c) * b - c * b
  {
    assert (x * f + c) * b == (x * f) * b + c * b;
    assert (l + x * b) * f == l * f + (x * b) * f;
    assert (x * b) * f == (x * f) * b;
  }

  /** The carry stays below the factor, and a non-zero limb leaves something. */
  lemma SmallCarry(x: u32, factor: u32, carry: u32)
    requires carry < factor || carry == 0
    ensures var p := Product(x, factor, carry);
            && 0 <= p / LIMB && (p / LIMB < factor || p / LIMB == 0)
            && (factor > 0 && x != 0 ==> p / LIMB > 0 || p % LIMB != 0)
  {
    if factor == 0 { return; }
    ProductOrder(x, LIMB - 1, factor, factor);
    if x != 0 { AtLeastOne(x, factor); }
    DivideBelow(x * factor + carry, factor);
  }

  method AddSmall(v: Number, addend: u32) returns (r: Number, ok: bool)
    requires Trimmed(v) && !v.negative
    ensures ok <==> Fits(Size(v) + addend)
    ensures ok ==> Trimmed(r) && !r.negative && Size(r) == Size(v) + addend
  {
    hide Low, Base, Total;
    r, ok := v, true;
    var carry: nat, index: nat := addend, 0;
    SizeIsTotal(r);
    SmallStart(addend);
    while carry != 0
      invariant Shaped(r) && !r.negative && index <= r.length && 0 <= carry < LIMB
      invariant r.length > 0 && index < r.length ==> r.limbs[r.length - 1] != 0
      invariant carry == 0 ==> Trimmed(r)
      invariant Total(r.limbs) + carry * Base(index) == Size(v) + addend
      decreases WORK_LIMBS - index, carry
    {
      if index >= r.length {
        SizeIsTotal(r);
        ghost var before := r;
        r, ok := Push(r, 0);
        if !ok {
          AtLeastOne(carry, Base(index));
          return;
        }
        SizeIsTotal(r);
      }
      var sum := r.limbs[index] + carry;
      PutAndCarry(r.limbs, index, sum);
      assert sum - r.limbs[index] == carry;
      r := r.(limbs := r.limbs[index := sum % LIMB]);
      carry := sum / LIMB;
      index := index + 1;
    }
    SizeIsTotal(r);
    SizeFits(r);
  }

  lemma SizeIsTotal(v: Number)
    requires Shaped(v)
    ensures Total(v.limbs) == Size(v)
  {
    SizeOf(v, WORK_LIMBS);
  }

  lemma SmallStart(x: nat)
    ensures x * Base(0) == x
  {}
}
