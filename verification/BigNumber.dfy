/** Signed integers of a bounded number of limbs: sums, differences and order. */
module BigNumbers {
  import opened Words
  import opened Limbs

  const MAX_LIMBS := 128
  const WORK_LIMBS := 130

  datatype Number = Number(negative: bool, limbs: seq<u32>, length: nat)

  function Zeros(): (z: seq<u32>)
    ensures |z| == WORK_LIMBS && forall i :: 0 <= i < |z| ==> z[i] == 0
  {
    seq(WORK_LIMBS, _ => 0)
  }

  const ZERO := Number(false, Zeros(), 0)

  /** Limbs above the length are zero. */
  predicate Shaped(v: Number) {
    |v.limbs| == WORK_LIMBS && v.length <= WORK_LIMBS && forall i :: v.length <= i < WORK_LIMBS ==> v.limbs[i] == 0
  }

  /** No leading zero limb, and no negative zero. */
  predicate Trimmed(v: Number) {
    && Shaped(v)
    && (v.length > 0 ==> v.limbs[v.length - 1] != 0)
    && (v.length == 0 ==> !v.negative)
  }

  function Size(v: Number): nat
    requires Shaped(v)
  {
    Low(v.limbs, v.length)
  }

  function Int(v: Number): int
    requires Shaped(v)
  {
    var size: int := Size(v);
    if v.negative then -size else size
  }

  /** An integer the working limbs can hold. */
  predicate Fits(x: int) {
    var bound: int := Base(WORK_LIMBS);
    -bound < x < bound
  }

  /** The number in all the limbs is the number in the first `length`. */
  lemma SizeOf(v: Number, k: nat)
    requires Shaped(v) && v.length <= k <= WORK_LIMBS
    ensures Low(v.limbs, k) == Size(v)
  {
    LowZeros(v.limbs, v.length, k);
  }

  /** How long a trimmed number is. */
  lemma LengthOf(v: Number)
    requires Trimmed(v)
    ensures Size(v) < Base(v.length)
    ensures v.length > 0 ==> Base(v.length - 1) <= Size(v)
    ensures Size(v) == 0 <==> v.length == 0
  {
    LowBound(v.limbs, v.length);
    if v.length > 0 { LowAtLeast(v.limbs, v.length); }
  }

  /** Trimmed numbers are equal when they denote the same integer. */
  lemma IntUnique(v: Number, w: Number)
    requires Trimmed(v) && Trimmed(w) && Int(v) == Int(w)
    ensures v == w
  {
    LengthOf(v);
    LengthOf(w);
    if v.length < w.length { BaseMonotone(v.length, w.length - 1); }
    if w.length < v.length { BaseMonotone(w.length, v.length - 1); }
    SizeOf(v, WORK_LIMBS);
    SizeOf(w, WORK_LIMBS);
    LowUnique(v.limbs, w.limbs, WORK_LIMBS);
    assert v.limbs == v.limbs[..WORK_LIMBS] && w.limbs == w.limbs[..WORK_LIMBS];
  }

  method Trim(v: Number) returns (r: Number)
    requires Shaped(v)
    ensures Trimmed(r) && Size(r) == Size(v) && r.limbs == v.limbs && r.length <= v.length
    ensures r.negative == (v.negative && Size(v) != 0)
  {
    r := v;
    while r.length > 0 && r.limbs[r.length - 1] == 0
      invariant Shaped(r) && r.limbs == v.limbs && r.negative == v.negative && r.length <= v.length && Size(r) == Size(v)
      decreases r.length
    {
      LowZeros(r.limbs, r.length - 1, r.length);
      r := r.(length := r.length - 1);
    }
    if r.length == 0 { r := r.(negative := false); } else { LowAtLeast(r.limbs, r.length); }
  }

  /** A new most significant limb; refused when there is no room. */
  method Push(v: Number, limb: u32) returns (r: Number, ok: bool)
    requires Shaped(v)
    ensures ok == (v.length < WORK_LIMBS)
    ensures ok ==> Shaped(r) && r == v.(limbs := v.limbs[v.length := limb], length := v.length + 1)
    ensures ok ==> Size(r) == Size(v) + limb * Base(v.length)
  {
    if v.length >= WORK_LIMBS { return v, false; }
    r, ok := v.(limbs := v.limbs[v.length := limb], length := v.length + 1), true;
    LowUpdate(v.limbs, v.length, limb, v.length);
    LowNext(r.limbs, v.length);
  }

  function LimbOf(v: Number, index: nat): u32
    requires Shaped(v)
  {
    if index < v.length then v.limbs[index] else 0
  }

  /** One more limb of a number, past its length too. */
  lemma LowLimb(v: Number, k: nat)
    requires Shaped(v) && k < WORK_LIMBS
    ensures Low(v.limbs, k + 1) == Low(v.limbs, k) + LimbOf(v, k) * Base(k)
  {
    LowNext(v.limbs, k);
  }

  // ----- order -----

  /** -1, 0 or 1 as the first is smaller, equal or greater. */
  function Sign(x: int): int { if x < 0 then -1 else if x > 0 then 1 else 0 }

  method CompareMagnitude(left: Number, right: Number) returns (order: int)
    requires Trimmed(left) && Trimmed(right)
    ensures order == Sign(Size(left) - Size(right))
  {
    hide Low, Base;
    if left.length != right.length {
      LengthOf(left);
      LengthOf(right);
      if left.length < right.length { BaseMonotone(left.length, right.length - 1); } else { BaseMonotone(right.length, left.length - 1); }
      return if left.length < right.length then -1 else 1;
    }
    var index := left.length;
    while index > 0
      invariant 0 <= index <= left.length
      invariant Size(left) - Size(right) == Low(left.limbs, index) - Low(right.limbs, index)
    {
      index := index - 1;
      LowNext(left.limbs, index);
      LowNext(right.limbs, index);
      LowBound(left.limbs, index);
      LowBound(right.limbs, index);
      if left.limbs[index] != right.limbs[index] {
        LeadDecides(left.limbs[index], right.limbs[index], Base(index));
        return if left.limbs[index] < right.limbs[index] then -1 else 1;
      }
    }
    LowNone(left.limbs);
    LowNone(right.limbs);
    order := 0;
  }

  method Compare(left: Number, right: Number) returns (order: int)
    requires Trimmed(left) && Trimmed(right)
    ensures order == Sign(Int(left) - Int(right))
  {
    LengthOf(left);
    LengthOf(right);
    if !left.negative && right.negative { return 1; }
    if left.negative && !right.negative { return -1; }
    if left.negative { order := CompareMagnitude(right, left); } else { order := CompareMagnitude(left, right); }
  }

  // ----- sums -----

  method AddMagnitude(left: Number, right: Number) returns (r: Number, ok: bool)
    requires Trimmed(left) && Trimmed(right)
    ensures ok <==> Fits(Size(left) + Size(right))
    ensures ok ==> Trimmed(r) && !r.negative && Size(r) == Size(left) + Size(right)
  {
    hide Low, Base;
    r := ZERO;
    var length := Max(left.length, right.length);
    var carry, index := 0, 0;
    LowStart(left, right);
    while index < length || carry != 0
      invariant Shaped(r) && r.length == index && !r.negative && 0 <= carry <= 1 && index <= length + 1
      invariant index > length ==> carry == 0
      invariant Size(r) + carry * Base(index) == Low(left.limbs, index) + Low(right.limbs, index)
      decreases length + 1 - index
    {
      var sum := LimbOf(left, index) + LimbOf(right, index) + carry;
      ghost var before := r;
      r, ok := Push(r, sum % LIMB);
      if !ok {
        AddFinished(left, right, before, index, carry);
        return;
      }
      AddStep(left, right, index, Size(before), carry);
      LastCarry(left, right, index, carry);
      carry := sum / LIMB;
      index := index + 1;
    }
    AddFinished(left, right, r, index, 0);
    r := Trim(r);
    ok := true;
  }

  /** Past both numbers only the carry is left, and it is spent. */
  lemma LastCarry(left: Number, right: Number, index: nat, carry: nat)
    requires Shaped(left) && Shaped(right) && carry <= 1
    ensures index >= Max(left.length, right.length) ==> (LimbOf(left, index) + LimbOf(right, index) + carry) / LIMB == 0
  {}

  lemma AddFinished(left: Number, right: Number, r: Number, index: nat, carry: nat)
    requires Shaped(left) && Shaped(right) && Shaped(r) && index <= WORK_LIMBS && r.length == index && index >= Max(left.length, right.length)
    requires Size(r) + carry * Base(index) == Low(left.limbs, index) + Low(right.limbs, index)
    ensures Size(r) + carry * Base(index) == Size(left) + Size(right)
    ensures carry == 0 ==> Fits(Size(r))
    ensures carry >= 1 ==> carry * Base(index) >= Base(index)
  {
    hide Low, Base;
    SizeOf(left, index);
    SizeOf(right, index);
    LowBound(r.limbs, index);
    BaseMonotone(index, WORK_LIMBS);
    assert carry >= 1 ==> (carry - 1) * Base(index) >= 0;
  }

  lemma LowStart(left: Number, right: Number)
    requires Shaped(left) && Shaped(right)
    ensures Low(left.limbs, 0) == 0 == Low(right.limbs, 0) && Size(ZERO) == 0
  {}

  lemma AddStep(left: Number, right: Number, index: nat, low: nat, carry: nat)
    requires Shaped(left) && Shaped(right) && index < WORK_LIMBS && carry <= 1
    requires low + carry * Base(index) == Low(left.limbs, index) + Low(right.limbs, index)
    ensures var sum := LimbOf(left, index) + LimbOf(right, index) + carry;
            && low + sum % LIMB * Base(index) + sum / LIMB * Base(index + 1) == Low(left.limbs, index + 1) + Low(right.limbs, index + 1)
            && sum / LIMB <= 1
  {
    hide Low, Base;
    var x, y, b := LimbOf(left, index), LimbOf(right, index), Base(index);
    LowLimb(left, index);
    LowLimb(right, index);
    BaseNext(index);
    assert (x + y + carry) * b == x * b + y * b + carry * b;
    CarryStep(b, x + y + carry, low, Low(left.limbs, index + 1) + Low(right.limbs, index + 1));
  }

  /** The difference of two magnitudes, the first not below the second. */
  method SubtractMagnitude(left: Number, right: Number) returns (r: Number)
    requires Trimmed(left) && Trimmed(right) && Size(left) >= Size(right)
    ensures Trimmed(r) && !r.negative && Size(r) == Size(left) - Size(right)
  {
    hide Low, Base;
    r := ZERO;
    var borrow, index := 0, 0;
    LowStart(left, right);
    while index < left.length
      invariant Shaped(r) && r.length == index <= left.length && !r.negative && 0 <= borrow <= 1
      invariant Size(r) - borrow * Base(index) == Low(left.limbs, index) - Low(right.limbs, index)
    {
      var difference: int := LimbOf(left, index) - LimbOf(right, index) - borrow;
      var limb: u32 := if difference < 0 then difference + LIMB else difference;
      SubtractStep(left, right, index, Size(r), borrow);
      ghost var before := r;
      r := Number(false, r.limbs[index := limb], index + 1);
      LowUpdate(before.limbs, index, limb, index);
      LowNext(r.limbs, index);
      borrow := if difference < 0 then 1 else 0;
      index := index + 1;
    }
    SubtractFinished(left, right, r, borrow);
    r := Trim(r);
  }

  lemma SubtractStep(left: Number, right: Number, index: nat, low: nat, borrow: nat)
    requires Shaped(left) && Shaped(right) && index < WORK_LIMBS && borrow <= 1
    requires low - borrow * Base(index) == Low(left.limbs, index) - Low(right.limbs, index)
    ensures var d: int := LimbOf(left, index) - LimbOf(right, index) - borrow;
            && (d >= 0 ==> low + d * Base(index) == Low(left.limbs, index + 1) - Low(right.limbs, index + 1))
            && (d < 0 ==> low + (d + LIMB) * Base(index) - Base(index + 1) == Low(left.limbs, index + 1) - Low(right.limbs, index + 1))
  {
    hide Low, Base;
    var x: int, y: int, b: int := LimbOf(left, index), LimbOf(right, index), Base(index);
    LowLimb(left, index);
    LowLimb(right, index);
    BaseNext(index);
    var d := x - y - borrow;
    assert d * b == x * b - y * b - borrow * b;
    assert (d + LIMB) * b == d * b + LIMB * b;
  }

  /** The larger number leaves no borrow. */
  lemma SubtractFinished(left: Number, right: Number, r: Number, borrow: nat)
    requires Trimmed(left) && Trimmed(right) && Shaped(r) && r.length == left.length && borrow <= 1
    requires Size(left) >= Size(right)
    requires Size(r) - borrow * Base(left.length) == Low(left.limbs, left.length) - Low(right.limbs, left.length)
    ensures borrow == 0 && Size(r) == Size(left) - Size(right)
  {
    hide Low, Base;
    LengthOf(left);
    LengthOf(right);
    if left.length < right.length { BaseMonotone(left.length, right.length - 1); }
    SizeOf(right, left.length);
    LowBound(r.limbs, r.length);
  }

  lemma SizeFits(v: Number)
    requires Shaped(v)
    ensures Fits(Size(v))
  {
    LowBound(v.limbs, v.length);
    BaseMonotone(v.length, WORK_LIMBS);
  }

  /** A number kept in a cell is short enough. */
  predicate Storable(v: Number) { Trimmed(v) && v.length <= MAX_LIMBS }

  /** Sums and differences of numbers from cells are never refused. */
  lemma StoredSumsFit(left: Number, right: Number)
    requires Storable(left) && Storable(right)
    ensures Fits(Int(left) + Int(right)) && Fits(Int(left) - Int(right))
  {
    hide Low, Base;
    LengthOf(left);
    LengthOf(right);
    BaseMonotone(left.length, MAX_LIMBS);
    BaseMonotone(right.length, MAX_LIMBS);
    BaseNext(MAX_LIMBS);
    BaseMonotone(MAX_LIMBS + 1, WORK_LIMBS);
  }

  /** Addition is exact, refused only when the sum needs more limbs than there are. */
  method Add(left: Number, right: Number) returns (r: Number, ok: bool)
    requires Trimmed(left) && Trimmed(right)
    ensures ok <==> Fits(Int(left) + Int(right))
    ensures ok ==> Trimmed(r) && Int(r) == Int(left) + Int(right)
  {
    hide Low, Base;
    SizeFits(left);
    SizeFits(right);
    if left.negative == right.negative {
      r, ok := AddMagnitude(left, right);
      if !ok { return; }
      r := Trim(r.(negative := left.negative));
      return;
    }
    LowStart(ZERO, ZERO);
    var order := CompareMagnitude(left, right);
    ok := true;
    if order == 0 {
      r := ZERO;
    } else if order == 1 {
      r := SubtractMagnitude(left, right);
      r := Trim(r.(negative := left.negative));
    } else {
      r := SubtractMagnitude(right, left);
      r := Trim(r.(negative := right.negative));
    }
  }

  function Negate(v: Number): Number { if v.length == 0 then v else v.(negative := !v.negative) }

  lemma NegateIsMinus(v: Number)
    requires Trimmed(v)
    ensures Trimmed(Negate(v)) && Int(Negate(v)) == -Int(v)
  {}

  method Subtract(left: Number, right: Number) returns (r: Number, ok: bool)
    requires Trimmed(left) && Trimmed(right)
    ensures ok <==> Fits(Int(left) - Int(right))
    ensures ok ==> Trimmed(r) && Int(r) == Int(left) - Int(right)
  {
    hide Low, Base;
    NegateIsMinus(right);
    r, ok := Add(left, Negate(right));
  }
}
