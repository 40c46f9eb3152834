/** Powers of two, and division by them. */
module Powers {
  import opened Words

  function Pow2(n: nat): (p: nat)
    ensures p >= 1
  {
    if n == 0 then 1 else 2 * Pow2(n - 1)
  }

  lemma Pow2Base()
    ensures Pow2(0) == 1
  {}

  lemma Pow2Next(n: nat)
    ensures Pow2(n + 1) == 2 * Pow2(n)
  {}

  lemma {:induction false} Pow2Monotone(m: nat, n: nat)
    requires m <= n
    ensures Pow2(m) <= Pow2(n)
    decreases n
  {
    if m < n { Pow2Monotone(m, n - 1); }
  }

  lemma {:induction false} Pow2Sum(a: nat, b: nat)
    ensures Pow2(a + b) == Pow2(a) * Pow2(b)
  {
    if b > 0 {
      Pow2Sum(a, b - 1);
      assert Pow2(a + b) == 2 * (Pow2(a) * Pow2(b - 1));
    }
  }

  lemma Pow2Of32()
    ensures Pow2(32) == 0x1_0000_0000 && Pow2(31) == 0x8000_0000
  {
    assert Pow2(8) == 256;
    Pow2Sum(8, 8);
    Pow2Sum(16, 16);
    Pow2Next(31);
  }

  /** Dropping one more bit. */
  lemma HalveAgain(s: int, p: nat)
    requires p >= 1
    ensures s / (2 * p) == s / p / 2
    ensures s % (2 * p) != 0 <==> s % p != 0 || s / p % 2 != 0
  {
    var q, r := s / p, s % p;
    assert s == q * p + r;
    var r2 := (q % 2) * p + r;
    assert s == (2 * p) * (q / 2) + r2 by { assert q == 2 * (q / 2) + q % 2; }
    assert q % 2 == 0 || q % 2 == 1;
    DivisionUnique(s, 2 * p, q / 2, r2);
  }

  lemma QuotientNatural(s: nat, p: nat)
    requires p > 0
    ensures s / p >= 0
  {
    var q: int, r: int, d: int := s / p, s % p, p;
    assert s == d * q + r;
    assert q <= -1 ==> d * q <= -d;
  }

  // ----- products -----

  lemma ProductOrder(a: nat, b: nat, c: nat, d: nat)
    requires a <= b && c <= d
    ensures a * c <= b * d
  {
    assert a * c <= a * d;
    assert (b - a) * d >= 0;
  }

  lemma CancelLess(p: nat, a: int, b: int)
    requires p * a < p * b
    ensures a < b
  {
    assert p * a >= p * b <== a >= b by { assert a >= b ==> p * (a - b) >= 0; }
  }
}
