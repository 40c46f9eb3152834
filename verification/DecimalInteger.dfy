/** Fixed-size unsigned integers: what does not fit is cut off at the top. */
module FixedIntegers {
  import opened Words
  import opened Powers
  import opened Limbs
  import opened BigProducts
  import opened BigDivision
  import opened DecimalPowers

  const LIMBS := 40

  datatype Integer = Integer(limbs: seq<u32>, length: nat)

  predicate Shaped(v: Integer) {
    |v.limbs| == LIMBS && v.length <= LIMBS && forall i :: v.length <= i < LIMBS ==> v.limbs[i] == 0
  }

  predicate Trimmed(v: Integer) { Shaped(v) && (v.length > 0 ==> v.limbs[v.length - 1] != 0) }

  function Val(v: Integer): nat
    requires Shaped(v)
  {
    Low(v.limbs, v.length)
  }

  /** A number the limbs can hold. */
  predicate Fits(n: int) { n < Base(LIMBS) }

  /** What the limbs hold of a number. */
  function Kept(n: int): (r: int)
    ensures Fits(n) ==> r == n
  {
    if Fits(n) then n else n % Base(LIMBS)
  }

  lemma KeptIs(n: int, low: int, high: int)
    requires n == low + high * Base(LIMBS) && 0 <= low < Base(LIMBS) && high >= 0
    ensures Kept(n) == low
  {
    hide Base;
    KeptBy(n, low, high, Base(LIMBS));
  }

  lemma KeptBy(n: int, low: int, high: int, b: int)
    requires n == low + high * b && 0 <= low < b && high >= 0
    ensures (n < b ==> n == low) && n % b == low
  {
    DivisionUnique(n, b, high, low);
    if high > 0 { ProductOrder(1, high, b, b); }
  }

  lemma KeptParts(n: nat) returns (high: int, low: int)
    ensures high >= 0 && 0 <= low == Kept(n) < Base(LIMBS) && n == low + high * Base(LIMBS)
  {
    hide Base, Kept;
    high, low := Divided(n, Base(LIMBS));
    KeptIs(n, low, high);
  }

  lemma Divided(n: nat, b: nat) returns (high: int, low: int)
    requires b > 0
    ensures high >= 0 && 0 <= low < b && n == low + high * b
  {
    high, low := n / b, n % b;
  }

  /** Cutting off before or after multiplying comes to the same. */
  lemma KeptTimes(n: nat, factor: nat)
    ensures Kept(Kept(n) * factor) == Kept(n * factor)
  {
    hide Kept, Base;
    var q, r := KeptParts(n);
    var more := ProductNat(r, factor);
    var q', r' := KeptParts(more);
    var less := ProductNat(q, factor);
    TimesParts(n, factor, Base(LIMBS), q, r, q', r');
    KeptIs(n * factor, r', q' + less);
  }

  lemma ProductNat(x: int, y: int) returns (p: nat)
    requires x >= 0 && y >= 0
    ensures p == x * y
  {
    assert x * y >= 0;
    p := x * y;
  }

  lemma TimesParts(n: int, factor: int, b: int, q: int, r: int, q': int, r': int)
    requires n == r + q * b && r * factor == r' + q' * b
    ensures n * factor == r' + (q' + q * factor) * b
  {
    assert (r + q * b) * factor == r * factor + (q * factor) * b;
    assert q' * b + (q * factor) * b == (q' + q * factor) * b;
  }

  function Zeros(): (z: seq<u32>)
    ensures |z| == LIMBS && forall i :: 0 <= i < LIMBS ==> z[i] == 0
  {
    seq(LIMBS, _ => 0)
  }

  lemma ValOf(v: Integer, k: nat)
    requires Shaped(v) && v.length <= k <= LIMBS
    ensures Low(v.limbs, k) == Val(v)
  {
    LowZeros(v.limbs, v.length, k);
  }

  lemma LengthOf(v: Integer)
    requires Trimmed(v)
    ensures Val(v) < Base(v.length) && (v.length > 0 ==> Base(v.length - 1) <= Val(v)) && (Val(v) == 0 <==> v.length == 0)
  {
    LowBound(v.limbs, v.length);
    if v.length > 0 { LowAtLeast(v.limbs, v.length); }
  }

  method Trim(v: Integer) returns (r: Integer)
    requires Shaped(v)
    ensures Trimmed(r) && Val(r) == Val(v)
  {
    r := v;
    while r.length > 0 && r.limbs[r.length - 1] == 0
      invariant Shaped(r) && Val(r) == Val(v)
      decreases r.length
    {
      LowZeros(r.limbs, r.length - 1, r.length);
      r := r.(length := r.length - 1);
    }
  }

  method FromU64(value: u64) returns (r: Integer)
    ensures Trimmed(r) && Val(r) == value
  {
    if value == 0 { return Integer(Zeros(), 0); }
    var low, high := value % LIMB, value / LIMB;
    r := Integer(Zeros()[0 := low][1 := high], if high == 0 then 1 else 2);
    TwoLimbs(r.limbs);
    assert value == low + LIMB * high;
  }

  lemma TwoLimbs(limbs: seq<u32>)
    requires |limbs| >= 2
    ensures Low(limbs, 0) == 0 && Low(limbs, 1) == limbs[0] && Low(limbs, 2) == limbs[0] + LIMB * limbs[1]
  {
    assert Base(0) == 1 && Low(limbs, 0) == 0;
    hide Low, Base;
    BaseNext(0);
    LowNext(limbs, 0);
    LowNext(limbs, 1);
  }

  // ----- products -----

  method MultiplySmall(v: Integer, factor: u32) returns (r: Integer)
    requires Trimmed(v)
    ensures Trimmed(r) && Val(r) == Kept(Val(v) * factor)
  {
    hide Low, Base, Kept;
    if v.length == 0 || factor == 1 {
      LengthOf(v);
      AlreadyKept(v);
      return v;
    }
    var limbs, carry := ScaleLimbs(v.limbs, v.length, factor);
    r := v.(limbs := limbs);
    while carry != 0 && r.length < LIMBS
      invariant 0 <= carry < LIMB && Shaped(r) && Val(r) + carry * Base(r.length) == Val(v) * factor
      decreases carry
    {
      Grown(r, carry % LIMB);
      r := Integer(r.limbs[r.length := carry % LIMB], r.length + 1);
      carry := carry / LIMB;
    }
    ShapedBelow(r);
    KeptIs(Val(v) * factor, Val(r), if carry == 0 then 0 else carry);
    r := Trim(r);
  }

  lemma ShapedBelow(v: Integer)
    requires Shaped(v)
    ensures Val(v) < Base(LIMBS)
  {
    LowBound(v.limbs, v.length);
    BaseMonotone(v.length, LIMBS);
  }

  lemma AlreadyKept(v: Integer)
    requires Shaped(v)
    ensures Kept(Val(v)) == Val(v)
  {
    ShapedBelow(v);
  }

  lemma Grown(v: Integer, limb: u32)
    requires Shaped(v) && v.length < LIMBS
    ensures var r := Integer(v.limbs[v.length := limb], v.length + 1); Shaped(r) && Val(r) == Val(v) + limb * Base(v.length)
  {
    LowUpdate(v.limbs, v.length, limb, v.length);
    LowNext(v.limbs[v.length := limb], v.length);
  }

  /** Limbs moved up by `k` places. */
  lemma {:induction false} MovedUp(a: seq<u32>, b: seq<u32>, k: nat, n: nat)
    requires n <= |a| && n + k <= |b|
    requires (forall i :: 0 <= i < k ==> b[i] == 0) && (forall i :: 0 <= i < n ==> b[i + k] == a[i])
    ensures Low(b, n + k) == Low(a, n) * Base(k)
    decreases n
  {
    if n == 0 {
      LowZeros(b, 0, k);
    } else {
      MovedUp(a, b, k, n - 1);
      LowNext(a, n - 1);
      LowNext(b, n - 1 + k);
      BaseSum(n - 1, k);
      hide Low, Base;
      assert b[n - 1 + k] == a[n - 1];
      MovedAlgebra(Low(a, n - 1), a[n - 1], Base(n - 1), Base(k));
    }
  }

  lemma MovedAlgebra(low: nat, x: nat, b: nat, k: nat)
    ensures low * k + x * (b * k) == (low + x * b) * k
  {
    assert x * (b * k) == (x * b) * k;
  }

  /** Whole limbs first. */
  method ShiftLimbs(v: Integer, places: nat) returns (r: Integer)
    requires Trimmed(v)
    ensures Shaped(r) && Val(r) == Kept(Val(v) * Base(places))
  {
    hide Low, Base, Kept;
    var limbs, index := v.limbs, v.length;
    while index > 0
      invariant 0 <= index <= v.length && |limbs| == LIMBS
      invariant forall i :: index + places <= i < v.length + places && i < LIMBS ==> limbs[i] == v.limbs[i - places]
      invariant forall i :: 0 <= i < index ==> limbs[i] == v.limbs[i]
      invariant forall i :: v.length + places <= i < LIMBS ==> limbs[i] == 0
    {
      index := index - 1;
      if index + places < LIMBS { limbs := limbs[index + places := limbs[index]]; }
    }
    var clear := 0;
    while clear < places && clear < LIMBS
      invariant 0 <= clear <= places && clear <= LIMBS && |limbs| == LIMBS
      invariant forall i :: 0 <= i < clear ==> limbs[i] == 0
      invariant forall i :: places <= i < v.length + places && i < LIMBS ==> limbs[i] == v.limbs[i - places]
      invariant forall i :: v.length + places <= i < LIMBS ==> limbs[i] == 0
    {
      limbs := limbs[clear := 0];
      clear := clear + 1;
    }
    r := Integer(limbs, Min(v.length + places, LIMBS));
    MovedIs(v, r, places);
  }

  /** Limbs moved past the last one are lost, and those alone. */
  lemma MovedIs(v: Integer, r: Integer, places: nat)
    requires Shaped(v) && Shaped(r) && r.length == Min(v.length + places, LIMBS)
    requires forall i :: 0 <= i < places && i < LIMBS ==> r.limbs[i] == 0
    requires forall i :: places <= i < v.length + places && i < LIMBS ==> r.limbs[i] == v.limbs[i - places]
    ensures Val(r) == Kept(Val(v) * Base(places))
  {
    hide Low, Base, Kept;
    ShapedBelow(r);
    if places >= LIMBS {
      LowZeros(r.limbs, 0, LIMBS);
      Nothing(r.limbs, v.limbs);
      BaseSum(LIMBS, places - LIMBS);
      AllLost(Val(v), Base(LIMBS), Base(places - LIMBS));
      KeptIs(Val(v) * Base(places), 0, Val(v) * Base(places - LIMBS));
    } else {
      var n := Min(v.length, LIMBS - places);
      MovedUp(v.limbs, r.limbs, places, n);
      LowHigh(v.limbs, n, v.length);
      BaseSum(n, places);
      SomeLost(Low(v.limbs, n), High(v.limbs, n, v.length), Base(n), Base(places));
      KeptIs(Val(v) * Base(places), Val(r), if n < v.length then High(v.limbs, n, v.length) else 0);
    }
  }

  lemma AllLost(x: nat, b: nat, c: nat)
    ensures x * (b * c) == 0 + (x * c) * b && x * c >= 0
  {}

  lemma SomeLost(low: nat, h: nat, b: nat, c: nat)
    ensures (low + b * h) * c == low * c + h * (b * c)
    ensures h == 0 ==> h * (b * c) == 0
  {
    assert (b * h) * c == h * (b * c);
  }

  method ShiftLeft(v: Integer, bits: nat) returns (r: Integer)
    requires Trimmed(v)
    ensures Trimmed(r) && Val(r) == Kept(Val(v) * Pow2(bits))
  {
    hide Low, Base, Pow2, Kept;
    LengthOf(v);
    Pow2Base();
    AlreadyKept(v);
    if v.length == 0 || bits == 0 { return v; }
    var places, rest := bits / 32, bits % 32;
    r := v;
    BaseZero();
    if places > 0 { r := ShiftLimbs(v, places); }
    r := Trim(r);
    ShiftParts(Val(v), places, rest);
    if rest > 0 {
      Pow2Monotone(rest, 31);
      Pow2Of32();
      r := MultiplySmall(r, Pow2(rest));
    }
  }

  lemma BaseZero()
    ensures Base(0) == 1
  {}

  /** Whole limbs and then the bits left over. */
  lemma ShiftParts(x: nat, places: nat, rest: nat)
    ensures Kept(Kept(x * Base(places)) * Pow2(rest)) == Kept(x * Pow2(32 * places + rest))
    ensures rest == 0 ==> Kept(x * Base(places)) == Kept(x * Pow2(32 * places + rest))
  {
    hide Low, Base, Pow2, Kept;
    BaseIsPow2(places);
    Pow2Sum(32 * places, rest);
    KeptTimes(x * Base(places), Pow2(rest));
    assert x * Base(places) * Pow2(rest) == x * (Base(places) * Pow2(rest));
  }

  /** Scale by 10^places, in steps of a billion. */
  method MultiplyPow10(v: Integer, places: nat) returns (r: Integer)
    requires Trimmed(v)
    ensures Trimmed(r) && Val(r) == Kept(Val(v) * Pow10(places))
  {
    hide Low, Base, Pow10, Kept;
    r := v;
    var remaining := places;
    TenStart();
    AlreadyKept(v);
    while remaining >= 9
      invariant 0 <= remaining <= places && Trimmed(r) && Kept(Val(r) * Pow10(remaining)) == Kept(Val(v) * Pow10(places))
      invariant Kept(Val(r)) == Val(r)
    {
      TenSplit(Val(r), 9, remaining - 9);
      r := MultiplySmall(r, 1_000_000_000);
      AlreadyKept(r);
      remaining := remaining - 9;
    }
    if remaining > 0 {
      var factor, index := 1, 0;
      while index < remaining
        invariant 0 <= index <= remaining && factor == Pow10(index)
      {
        TenNext(index);
        factor := factor * 10;
        index := index + 1;
      }
      TenSplit(Val(r), remaining, 0);
      TenSmall(remaining);
      r := MultiplySmall(r, factor);
    }
  }

  lemma TenStart()
    ensures Pow10(0) == 1
  {}

  lemma TenNext(n: nat)
    ensures Pow10(n + 1) == Pow10(n) * 10
  {}

  lemma TenSmall(n: nat)
    requires n < 9
    ensures Pow10(n) < LIMB
  {
    hide Pow10;
    Pow10Is(n);
    Pow10Is(9);
    PowerGrows(10, n, 9);
    Nine();
  }

  lemma Nine()
    ensures Pow10(9) == 1_000_000_000 && Pow10(0) == 1
  {}

  /** Some of the places now, the rest later. */
  lemma TenSplit(x: nat, now: nat, later: nat)
    ensures Kept(x * Pow10(now + later)) == Kept(Kept(x * Pow10(now)) * Pow10(later))
    ensures Pow10(9) == 1_000_000_000 && Pow10(0) == 1
  {
    hide Pow10, Kept;
    Nine();
    Pow10Is(now);
    Pow10Is(later);
    Pow10Is(now + later);
    PowerSum(10, now, later);
    var p, q := Pow10(now), Pow10(later);
    assert x * (p * q) == x * p * q;
    KeptTimes(x * p, q);
  }

  // ----- order, sums and differences -----

  method Compare(left: Integer, right: Integer) returns (order: int)
    requires Trimmed(left) && Trimmed(right)
    ensures order == if Val(left) < Val(right) then -1 else if Val(left) > Val(right) then 1 else 0
  {
    hide Low, Base;
    if left.length != right.length {
      LengthOf(left);
      LengthOf(right);
      if left.length < right.length { BaseMonotone(left.length, right.length - 1); } else { BaseMonotone(right.length, left.length - 1); }
      return if left.length < right.length then -1 else 1;
    }
    var index := left.length;
    while index > 0
      invariant 0 <= index <= left.length
      invariant Val(left) - Val(right) == Low(left.limbs, index) - Low(right.limbs, index)
    {
      index := index - 1;
      LowNext(left.limbs, index);
      LowNext(right.limbs, index);
      LowBound(left.limbs, index);
      LowBound(right.limbs, index);
      if left.limbs[index] != right.limbs[index] {
        LeadDecides(left.limbs[index], right.limbs[index], Base(index));
        return if left.limbs[index] < right.limbs[index] then -1 else 1;
      }
    }
    LowNone(left.limbs);
    LowNone(right.limbs);
    order := 0;
  }

  method AddAssign(v: Integer, other: Integer) returns (r: Integer)
    requires Trimmed(v) && Trimmed(other)
    ensures Trimmed(r) && Val(r) == Kept(Val(v) + Val(other))
  {
    hide Low, Base, Kept;
    var limbs: seq<u32>, carry: nat, index: nat := v.limbs, 0, 0;
    var length := Max(v.length, other.length);
    Nothing(v.limbs, other.limbs);
    while index < length || carry != 0
      invariant 0 <= index <= LIMBS && |limbs| == LIMBS && 0 <= carry <= 1
      invariant forall i :: index <= i < LIMBS ==> limbs[i] == v.limbs[i]
      invariant Low(limbs, index) + carry * Base(index) == Low(v.limbs, index) + Low(other.limbs, index)
      invariant index <= length + 1 && (index > length ==> carry == 0)
      decreases length + 1 - index
    {
      if index >= LIMBS { break; }
      var left := if index < v.length then limbs[index] else 0;
      var right := if index < other.length then other.limbs[index] else 0;
      var sum := left + right + carry;
      SumStep(v.limbs, other.limbs, index, Low(limbs, index), carry);
      LowUpdate(limbs, index, sum % LIMB, index);
      limbs := limbs[index := sum % LIMB];
      LowNext(limbs, index);
      carry := sum / LIMB;
      index := index + 1;
    }
    r := Integer(limbs, Min(Max(index, v.length), LIMBS));
    LowZeros(limbs, index, r.length);
    SumDone(v, other, r, index, carry);
    r := Trim(r);
  }

  lemma Nothing(a: seq<u32>, b: seq<u32>)
    ensures Low(a, 0) == 0 && Low(b, 0) == 0
  {}

  lemma SumStep(a: seq<u32>, b: seq<u32>, k: nat, low: nat, carry: nat)
    requires k < |a| && k < |b| && carry <= 1 && low + carry * Base(k) == Low(a, k) + Low(b, k)
    ensures var sum := a[k] + b[k] + carry;
            low + sum % LIMB * Base(k) + sum / LIMB * Base(k + 1) == Low(a, k + 1) + Low(b, k + 1) && sum / LIMB <= 1
  {
    hide Low, Base;
    LowNext(a, k);
    LowNext(b, k);
    BaseNext(k);
    var w := Base(k);
    assert (a[k] + b[k] + carry) * w == a[k] * w + b[k] * w + carry * w;
    CarryStep(w, a[k] + b[k] + carry, low, Low(a, k + 1) + Low(b, k + 1));
  }

  /** Only a carry past the last limb is lost. */
  lemma SumDone(v: Integer, other: Integer, r: Integer, index: nat, carry: nat)
    requires Shaped(v) && Shaped(other) && Shaped(r) && index <= LIMBS && index >= Max(v.length, other.length)
    requires (carry == 0 || index == LIMBS) && Val(r) == Low(r.limbs, index)
    requires Low(r.limbs, index) + carry * Base(index) == Low(v.limbs, index) + Low(other.limbs, index)
    ensures Val(r) == Kept(Val(v) + Val(other))
  {
    hide Low, Base, Kept;
    ValOf(v, index);
    ValOf(other, index);
    ShapedBelow(r);
    assert carry == 0 ==> carry * Base(index) == 0 && carry * Base(LIMBS) == 0;
    KeptIs(Val(v) + Val(other), Val(r), carry);
  }

  /** Subtract a number that is not larger. */
  method SubtractAssign(v: Integer, other: Integer) returns (r: Integer)
    requires Trimmed(v) && Trimmed(other) && Val(other) <= Val(v)
    ensures Trimmed(r) && Val(r) == Val(v) - Val(other)
  {
    hide Low, Base;
    var limbs: seq<u32>, borrow: nat, index: nat := v.limbs, 0, 0;
    Nothing(v.limbs, other.limbs);
    while index < v.length
      invariant 0 <= index <= v.length && |limbs| == LIMBS && 0 <= borrow <= 1
      invariant forall i :: index <= i < LIMBS ==> limbs[i] == v.limbs[i]
      invariant Low(limbs, index) - borrow * Base(index) == Low(v.limbs, index) - Low(other.limbs, index)
    {
      var right := if index < other.length then other.limbs[index] else 0;
      var difference: int := limbs[index] - right - borrow;
      var limb: u32 := if difference < 0 then difference + LIMB else difference;
      DifferenceStep(v.limbs, other.limbs, index, Low(limbs, index), borrow);
      LowUpdate(limbs, index, limb, index);
      limbs := limbs[index := limb];
      LowNext(limbs, index);
      borrow := if difference < 0 then 1 else 0;
      index := index + 1;
    }
    DifferenceDone(v, other, limbs, borrow);
    r := Trim(Integer(limbs, v.length));
  }

  lemma DifferenceStep(a: seq<u32>, b: seq<u32>, k: nat, low: nat, borrow: nat)
    requires k < |a| && k < |b| && borrow <= 1 && low - borrow * Base(k) == Low(a, k) - Low(b, k)
    ensures var d: int := a[k] - b[k] - borrow;
            && (d >= 0 ==> low + d * Base(k) == Low(a, k + 1) - Low(b, k + 1))
            && (d < 0 ==> low + (d + LIMB) * Base(k) - Base(k + 1) == Low(a, k + 1) - Low(b, k + 1))
  {
    hide Low, Base;
    LowNext(a, k);
    LowNext(b, k);
    BaseNext(k);
    var x: int, y: int, w: int := a[k], b[k], Base(k);
    var d := x - y - borrow;
    assert d * w == x * w - y * w - borrow * w;
    assert (d + LIMB) * w == d * w + LIMB * w;
  }

  lemma DifferenceDone(v: Integer, other: Integer, limbs: seq<u32>, borrow: nat)
    requires Trimmed(v) && Trimmed(other) && |limbs| == LIMBS && borrow <= 1 && Val(other) <= Val(v)
    requires Low(limbs, v.length) - borrow * Base(v.length) == Low(v.limbs, v.length) - Low(other.limbs, v.length)
    ensures borrow == 0 && Low(limbs, v.length) == Val(v) - Val(other)
  {
    hide Low, Base;
    LengthOf(v);
    LengthOf(other);
    if v.length < other.length { BaseMonotone(v.length, other.length - 1); }
    ValOf(other, v.length);
    LowBound(limbs, v.length);
  }
}
