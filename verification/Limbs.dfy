/** Numbers in limbs of 32 bits, least significant first. */
module Limbs {
  import opened Words

  const LIMB: nat := 0x1_0000_0000

  /** The weight of limb `k`. */
  function Base(k: nat): (b: nat)
    ensures b >= 1
  {
    if k == 0 then 1 else LIMB * Base(k - 1)
  }

  /** The number in the first `k` limbs. */
  function Low(limbs: seq<u32>, k: nat): nat
    requires k <= |limbs|
  {
    if k == 0 then 0 else Low(limbs, k - 1) + LimbAt(limbs, k - 1)
  }

  /** Limb `k` at its weight. */
  function LimbAt(limbs: seq<u32>, k: nat): (v: nat)
    requires k < |limbs|
  {
    Times(limbs[k], Base(k))
  }

  function Times(a: nat, b: nat): nat { a * b }

  lemma BaseNext(k: nat)
    ensures Base(k + 1) == LIMB * Base(k)
  {}

  lemma {:induction false} BaseSum(a: nat, b: nat)
    ensures Base(a + b) == Base(a) * Base(b)
  {
    if b > 0 {
      BaseSum(a, b - 1);
      BaseNext(b - 1);
      BaseNext(a + b - 1);
      hide Base;
      assert a + b - 1 == a + (b - 1);
      Exchanged(LIMB, Base(a), Base(b - 1));
    }
  }

  lemma Exchanged(l: nat, x: nat, y: nat)
    ensures l * (x * y) == x * (l * y)
  {}

  lemma {:induction false} BaseMonotone(a: nat, b: nat)
    requires a <= b
    ensures Base(a) <= Base(b)
    decreases b
  {
    if a < b { BaseMonotone(a, b - 1); }
  }

  lemma LowNext(limbs: seq<u32>, k: nat)
    requires k < |limbs|
    ensures Low(limbs, k + 1) == Low(limbs, k) + limbs[k] * Base(k)
  {}

  /** Limbs from `k` on do not matter to the first `k`. */
  lemma {:induction false} LowAgrees(a: seq<u32>, b: seq<u32>, k: nat)
    requires k <= |a| && k <= |b| && forall i :: 0 <= i < k ==> a[i] == b[i]
    ensures Low(a, k) == Low(b, k)
    decreases k
  {
    if k > 0 { LowAgrees(a, b, k - 1); }
  }

  lemma LowUpdate(limbs: seq<u32>, i: nat, x: u32, k: nat)
    requires k <= i < |limbs|
    ensures Low(limbs[i := x], k) == Low(limbs, k)
  {
    LowAgrees(limbs[i := x], limbs, k);
  }

  lemma {:induction false} LowBound(limbs: seq<u32>, k: nat)
    requires k <= |limbs|
    ensures Low(limbs, k) < Base(k)
    decreases k
  {
    if k > 0 {
      LowBound(limbs, k - 1);
      LowNext(limbs, k - 1);
      TopLimb(limbs[k - 1], Base(k - 1));
    }
  }

  lemma TopLimb(x: u32, b: nat)
    ensures 0 <= x * b && x * b + b <= LIMB * b
  {
    assert (LIMB - 1 - x) * b >= 0;
  }

  /** The leading limb decides an order. */
  lemma LeadDecides(x: nat, y: nat, b: nat)
    ensures x < y ==> x * b + b <= y * b
    ensures y < x ==> y * b + b <= x * b
  {
    if x < y { OneBlock(x, b, y - x - 1); }
    if y < x { OneBlock(y, b, x - y - 1); }
  }

  lemma OneBlock(x: nat, b: nat, more: nat)
    ensures x * b + b <= (x + 1 + more) * b
  {
    assert more * b >= 0;
    assert (x + 1 + more) * b == x * b + b + more * b;
  }

  lemma LowNone(limbs: seq<u32>)
    ensures Low(limbs, 0) == 0
  {}

  /** Zero limbs on top add nothing. */
  lemma {:induction false} LowZeros(limbs: seq<u32>, a: nat, b: nat)
    requires a <= b <= |limbs| && forall i :: a <= i < b ==> limbs[i] == 0
    ensures Low(limbs, b) == Low(limbs, a)
    decreases b
  {
    if a < b {
      LowZeros(limbs, a, b - 1);
      LowNext(limbs, b - 1);
    }
  }

  lemma {:induction false} LowMonotone(limbs: seq<u32>, a: nat, b: nat)
    requires a <= b <= |limbs|
    ensures Low(limbs, a) <= Low(limbs, b)
    decreases b
  {
    if a < b { LowMonotone(limbs, a, b - 1); }
  }

  /** A non-zero top limb sets the least number there can be. */
  lemma LowAtLeast(limbs: seq<u32>, k: nat)
    requires 0 < k <= |limbs| && limbs[k - 1] != 0
    ensures Base(k - 1) <= Low(limbs, k)
  {
    hide Low, Base;
    LowNext(limbs, k - 1);
    AtLeastOne(limbs[k - 1], Base(k - 1));
  }

  lemma AtLeastOne(x: nat, b: nat)
    requires x >= 1
    ensures x * b >= b
  {
    assert (x - 1) * b >= 0;
  }

  /** The same number has the same limbs. */
  lemma {:induction false} LowUnique(a: seq<u32>, b: seq<u32>, k: nat)
    requires k <= |a| && k <= |b| && Low(a, k) == Low(b, k)
    ensures a[..k] == b[..k]
    decreases k
  {
    hide Low, Base;
    if k > 0 {
      TopUnique(a, k - 1);
      TopUnique(b, k - 1);
      LowUnique(a, b, k - 1);
      assert a[..k] == a[..k - 1] + [a[k - 1]] && b[..k] == b[..k - 1] + [b[k - 1]];
    }
  }

  /** The top limb is the quotient by its weight. */
  lemma TopUnique(limbs: seq<u32>, k: nat)
    requires k < |limbs|
    ensures Low(limbs, k + 1) / Base(k) == limbs[k] && Low(limbs, k + 1) % Base(k) == Low(limbs, k)
  {
    hide Low, Base;
    LowBound(limbs, k);
    LowNext(limbs, k);
    DivisionUnique(Low(limbs, k + 1), Base(k), limbs[k], Low(limbs, k));
  }

  /** The number in limbs `k` up to `n`, at the weight of limb `k`. */
  function High(limbs: seq<u32>, k: nat, n: nat): nat
    requires k <= n <= |limbs|
    decreases n - k
  {
    if k == n then 0 else limbs[k] + LIMB * High(limbs, k + 1, n)
  }

  lemma HighNext(limbs: seq<u32>, k: nat, n: nat)
    requires k < n <= |limbs|
    ensures High(limbs, k, n) == limbs[k] + LIMB * High(limbs, k + 1, n)
  {}

  lemma {:induction false} LowHigh(limbs: seq<u32>, k: nat, n: nat)
    requires k <= n <= |limbs|
    ensures Low(limbs, n) == Low(limbs, k) + Base(k) * High(limbs, k, n)
    decreases n - k
  {
    if k < n {
      LowHigh(limbs, k + 1, n);
      LowNext(limbs, k);
      Shift(Base(k), limbs[k], High(limbs, k + 1, n));
    }
  }

  lemma Shift(b: nat, x: nat, h: nat)
    ensures x * b + (LIMB * b) * h == b * (x + LIMB * h)
  {}

  /** Splitting a double limb into what is kept and what is carried. */
  lemma CarryStep(b: nat, p: nat, low: nat, total: int)
    requires low + p * b == total
    ensures low + p % LIMB * b + p / LIMB * (LIMB * b) == total
  {
    var q, r := p / LIMB, p % LIMB;
    assert p == LIMB * q + r;
    assert (LIMB * q + r) * b == r * b + q * (LIMB * b);
  }
}
