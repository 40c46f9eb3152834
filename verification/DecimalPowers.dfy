/** Powers of ten against powers of two, and the estimate of a decimal exponent. */
module DecimalPowers {
  import opened Words
  import opened Powers
  import opened FloatGrid

  function Power(a: nat, n: nat): nat { if n == 0 then 1 else a * Power(a, n - 1) }

  function Pow10(n: nat): (p: nat)
    ensures p >= 1
  {
    if n == 0 then 1 else 10 * Pow10(n - 1)
  }

  // ----- laws -----

  lemma {:induction false} PowerSum(a: nat, m: nat, n: nat)
    ensures Power(a, m + n) == Power(a, m) * Power(a, n)
    decreases n
  {
    if n == 0 {
      assert m + n == m;
    } else {
      PowerSum(a, m, n - 1);
      PowerUnfold(a, m + n);
      PowerUnfold(a, n);
      hide Power;
      assert m + n - 1 == m + (n - 1);
      Swapped(a, Power(a, m), Power(a, n - 1));
    }
  }

  lemma Swapped(a: nat, p: nat, q: nat)
    ensures a * (p * q) == p * (a * q)
  {}

  lemma {:induction false} PowerProduct(a: nat, m: nat, n: nat)
    ensures Power(a, m * n) == Power(Power(a, m), n)
    decreases n
  {
    if n > 0 {
      PowerProduct(a, m, n - 1);
      assert m * n == m * (n - 1) + m;
      PowerSum(a, m * (n - 1), m);
    } else {
      assert m * n == 0;
    }
  }

  lemma {:induction false} PowerOrder(a: nat, b: nat, n: nat)
    requires a <= b
    ensures Power(a, n) <= Power(b, n)
  {
    if n > 0 {
      PowerOrder(a, b, n - 1);
      ProductOrder(a, b, Power(a, n - 1), Power(b, n - 1));
    }
  }

  lemma {:induction false} PowerPositive(a: nat, n: nat)
    requires a >= 1
    ensures Power(a, n) >= 1
  {
    if n > 0 {
      PowerPositive(a, n - 1);
      ProductOrder(1, a, 1, Power(a, n - 1));
    }
  }

  lemma {:induction false} PowerStrict(a: nat, b: nat, n: nat)
    requires a < b && n > 0
    ensures Power(a, n) < Power(b, n)
    decreases n
  {
    PowerOrder(a, b, n - 1);
    PowerPositive(b, n - 1);
    PowerUnfold(a, n);
    PowerUnfold(b, n);
    hide Power;
    StrictProduct(a, b, Power(a, n - 1), Power(b, n - 1));
  }

  lemma StrictProduct(a: nat, b: nat, p: nat, q: nat)
    requires a < b && p <= q && q >= 1
    ensures a * p < b * q
  {
    ProductOrder(a, b - 1, p, q);
    assert (b - 1) * q == b * q - q;
  }

  lemma PowerUnfold(a: nat, n: nat)
    requires n > 0
    ensures Power(a, n) == a * Power(a, n - 1)
  {}

  /** Taking a root. */
  lemma PowerRoot(a: nat, b: nat, n: nat)
    requires n > 0 && Power(a, n) <= Power(b, n)
    ensures a <= b
  {
    hide Power;
    if b < a { PowerStrict(b, a, n); }
  }

  lemma {:induction false} PowerGrows(a: nat, m: nat, n: nat)
    requires a >= 1 && m <= n
    ensures Power(a, m) <= Power(a, n)
    decreases n
  {
    if m < n {
      PowerGrows(a, m, n - 1);
      ProductOrder(1, a, Power(a, n - 1), Power(a, n - 1));
    }
  }

  lemma {:induction false} Pow2Is(n: nat)
    ensures Pow2(n) == Power(2, n)
  {
    if n > 0 { Pow2Is(n - 1); }
  }

  lemma {:induction false} Pow10Is(n: nat)
    ensures Pow10(n) == Power(10, n)
  {
    if n > 0 { Pow10Is(n - 1); }
  }

  // ----- two facts about the logarithm of two -----

  /** Exponents in proportion p : q compare as the powers at p and q do. */
  lemma Proportion(a: nat, b: nat, p: nat, q: nat, m: nat, n: nat)
    requires a >= 1 && q > 0 && Power(a, p) <= Power(b, q) && q * m <= p * n
    ensures Power(a, m) <= Power(b, n)
  {
    ProportionAt(a, b, p, q, m, n, q * m, p * n, q * n);
  }

  lemma ProportionAt(a: nat, b: nat, p: nat, q: nat, m: nat, n: nat, qm: nat, pn: nat, qn: nat)
    requires a >= 1 && q > 0 && Power(a, p) <= Power(b, q)
    requires qm == m * q && pn == p * n && qn == q * n && qm <= pn
    ensures Power(a, m) <= Power(b, n)
  {
    hide Power;
    PowerPower(a, m, q, qm);
    PowerPower(a, p, n, pn);
    PowerPower(b, q, n, qn);
    PowerPower(b, n, q, qn);
    PowerGrows(a, qm, pn);
    PowerOrder(Power(a, p), Power(b, q), n);
    PowerRoot(Power(a, m), Power(b, n), q);
  }

  lemma PowerPower(a: nat, m: nat, n: nat, mn: nat)
    requires mn == m * n
    ensures Power(a, mn) == Power(Power(a, m), n)
  {
    PowerProduct(a, m, n);
  }

  lemma Pow93()
    ensures Power(2, 93) <= Power(10, 28)
  {
    Pow2Is(31);
    Pow2Of32();
    Pow10Is(7);
    assert Pow10(7) == 10_000_000;
    hide Power, Pow2, Pow10;
    PowerSum(2, 31, 31);
    PowerSum(2, 62, 31);
    PowerSum(10, 7, 7);
    PowerSum(10, 14, 14);
  }

  /** A square, kept to its leading figures. */
  lemma SquareFloor(n: nat, twice: nat, m: nat, t: nat, m': nat, t': nat, dropped: nat)
    requires twice == 2 * n && m * Power(10, t) <= Power(2, n)
    requires t' == 2 * t + dropped && m' * Power(10, dropped) <= m * m
    ensures m' * Power(10, t') <= Power(2, twice)
  {
    hide Power;
    PowerSum(2, n, n);
    PowerSum(10, t, t);
    PowerSum(10, dropped, 2 * t);
    FloorOfSquare(m, Power(10, t), Power(2, n), m', Power(10, dropped));
  }

  lemma FloorOfSquare(m: nat, p: nat, q: nat, m': nat, d: nat)
    requires m * p <= q && m' * d <= m * m
    ensures m' * (d * (p * p)) <= q * q
  {
    SquareOrder(m * p, q);
    TimesOrder(m' * d, m * m, p * p);
    Rearranged(m, p, m', d);
  }

  lemma CeilingOfSquare(m: nat, p: nat, q: nat, m': nat, d: nat)
    requires q <= m * p && m * m <= m' * d
    ensures q * q <= m' * (d * (p * p))
  {
    SquareOrder(q, m * p);
    TimesOrder(m * m, m' * d, p * p);
    Rearranged(m, p, m', d);
  }

  lemma SquareOrder(a: nat, b: nat)
    requires a <= b
    ensures a * a <= b * b
  {
    ProductOrder(a, b, a, b);
  }

  lemma TimesOrder(a: nat, b: nat, c: nat)
    requires a <= b
    ensures a * c <= b * c
  {
    ProductOrder(a, b, c, c);
  }

  lemma Rearranged(m: nat, p: nat, m': nat, d: nat)
    ensures (m * p) * (m * p) == (m * m) * (p * p)
    ensures (m' * d) * (p * p) == m' * (d * (p * p))
  {
    assert (m * p) * (m * p) == m * (p * (m * p));
    assert p * (m * p) == m * (p * p);
  }

  lemma Figures()
    ensures Power(10, 15) == 1000000000000000 && Power(10, 16) == 10000000000000000
  {
    assert Power(10, 5) == 100000;
    hide Power;
    PowerSum(10, 5, 5);
    PowerSum(10, 10, 5);
    PowerUnfold(10, 16);
  }

  lemma SmallPowers()
    ensures Power(10, 1) == 10 && Power(2, 11) == 2048
  {
    assert Power(2, 5) == 32 && Power(2, 1) == 2 && Power(10, 1) == 10;
    hide Power;
    PowerSum(2, 5, 5);
    PowerSum(2, 10, 1);
  }

  lemma Pow267()
    ensures 2371421987580235 * Power(10, 65) <= Power(2, 267)
  {
    hide Power, Pow2;
    Figures();
    SmallPowers();
    Pow2Is(32);
    Pow2Of32();
    PowerSum(10, 16, 16);
    PowerSum(10, 32, 32);
    PowerSum(10, 64, 1);
    PowerSum(2, 32, 32);
    PowerSum(2, 64, 64);
    PowerSum(2, 128, 128);
    PowerSum(2, 256, 11);
  }

  lemma Pow1068()
    ensures 3162535207926724 * Power(10, 306) <= Power(2, 1068)
  {
    hide Power;
    Figures();
    Pow267();
    SquareFloor(267, 534, 2371421987580235, 65, 5623642243178992, 145, 15);
    SquareFloor(534, 1068, 5623642243178992, 145, 3162535207926724, 306, 16);
  }

  /** Two to the 2136 just passes ten to the 643. */
  lemma Pow2136()
    ensures Power(10, 643) <= Power(2, 2136)
  {
    hide Power;
    Figures();
    Pow1068();
    SquareFloor(1068, 2136, 3162535207926724, 306, 1000162894137612, 628, 16);
    PowerSum(10, 15, 628);
    ProductOrder(Power(10, 15), 1000162894137612, Power(10, 628), Power(10, 628));
  }

  /** A square from above, kept to its leading figures. */
  lemma SquareCeiling(n: nat, twice: nat, m: nat, t: nat, m': nat, t': nat, dropped: nat)
    requires twice == 2 * n && Power(2, n) <= m * Power(10, t)
    requires t' == 2 * t + dropped && m * m <= m' * Power(10, dropped)
    ensures Power(2, twice) <= m' * Power(10, t')
  {
    hide Power;
    PowerSum(2, n, n);
    PowerSum(10, t, t);
    PowerSum(10, dropped, 2 * t);
    CeilingOfSquare(m, Power(10, t), Power(2, n), m', Power(10, dropped));
  }

  lemma Pow67()
    ensures Power(2, 67) <= 147574 * Power(10, 15)
  {
    assert Power(2, 3) == 8;
    hide Power, Pow2;
    Figures();
    Pow2Is(32);
    Pow2Of32();
    PowerSum(2, 32, 32);
    PowerSum(2, 64, 3);
  }

  lemma MoreFigures()
    ensures Power(10, 5) == 100000 && Power(10, 6) == 1000000 && Power(2, 2) == 4 && Power(2, 6) == 64
  {
    assert Power(10, 5) == 100000 && Power(2, 2) == 4 && Power(2, 3) == 8;
    hide Power;
    PowerUnfold(10, 6);
    PowerSum(2, 3, 3);
  }

  /** Two to the 1074 is a little over twice ten to the 323. */
  lemma Pow1074()
    ensures 2 * Power(10, 323) < Power(2, 1074) && 10 * Power(2, 1074) <= 21 * Power(10, 323)
  {
    hide Power;
    Figures();
    MoreFigures();
    Pow1068();
    PowerSum(2, 1068, 6);
    PowerPositive(10, 306);
    PowerUnfold(10, 17);
    PowerSum(10, 17, 306);
    Pow67();
    SquareCeiling(67, 134, 147574, 15, 217781, 35, 5);
    SquareCeiling(134, 268, 217781, 35, 474286, 75, 5);
    SquareCeiling(268, 536, 474286, 75, 224948, 156, 6);
    SquareCeiling(536, 1072, 224948, 156, 506017, 317, 5);
    PowerSum(2, 1072, 2);
    PowerSum(10, 6, 317);
  }

  /** 28/93 is above the logarithm, 643/2136 below it. */
  lemma TwoAgainstTen(b: nat, t: nat)
    ensures 28 * b <= 93 * t ==> Pow2(b) <= Pow10(t)
    ensures 2136 * t <= 643 * b ==> Pow10(t) <= Pow2(b)
  {
    hide Power, Pow2, Pow10;
    Pow2Is(b);
    Pow10Is(t);
    Pow93();
    Pow2136();
    if 28 * b <= 93 * t { Proportion(2, 10, 93, 28, b, t); }
    if 2136 * t <= 643 * b { Proportion(10, 2, 643, 2136, t, b); }
  }

  // ----- real powers -----

  ghost function Exp10(e: int): (r: real)
    ensures r > 0.0
    decreases if e < 0 then -e else e
  {
    if e == 0 then 1.0 else if e > 0 then 10.0 * Exp10(e - 1) else Exp10(e + 1) / 10.0
  }

  lemma Exp10Next(e: int)
    ensures Exp10(e + 1) == 10.0 * Exp10(e)
  {}

  lemma {:induction false} Exp10Up(n: nat)
    ensures Exp10(n) == Pow10(n) as real
  {
    if n > 0 { Exp10Up(n - 1); }
  }

  lemma {:induction false} Exp10Down(n: nat)
    ensures Exp10(0 - n) * (Pow10(n) as real) == 1.0
  {
    if n > 0 {
      Exp10Down(n - 1);
      Exp10Next(0 - n);
      var x, p := Exp10(0 - n), Pow10(n - 1) as real;
      assert Pow10(n) as real == 10.0 * p;
      assert x * (10.0 * p) == (10.0 * x) * p;
    }
  }

  lemma {:induction false} Exp2Up(n: nat)
    ensures Exp2(n) == Pow2(n) as real
  {
    if n > 0 { Exp2Up(n - 1); }
  }

  lemma {:induction false} Exp2Down(n: nat)
    ensures Exp2(0 - n) * (Pow2(n) as real) == 1.0
  {
    if n > 0 {
      Exp2Down(n - 1);
      Exp2Next(0 - n);
      var x, p := Exp2(0 - n), Pow2(n - 1) as real;
      assert Pow2(n) as real == 2.0 * p;
      assert x * (2.0 * p) == (2.0 * x) * p;
    }
  }

  lemma {:induction false} Exp10Sum(e: int, n: nat)
    ensures Exp10(e + n) == Exp10(e) * (Pow10(n) as real)
    decreases n
  {
    hide Exp10;
    if n > 0 {
      Exp10Sum(e, n - 1);
      Exp10Next(e + n - 1);
      var x, p := Exp10(e), Pow10(n - 1) as real;
      assert Pow10(n) as real == 10.0 * p;
      assert 10.0 * (x * p) == x * (10.0 * p);
    }
  }

  lemma Reciprocals(x: real, y: real, p: real, q: real)
    requires x * p == 1.0 && y * q == 1.0 && x > 0.0 && p > 0.0 && q > 0.0 && p <= q
    ensures y <= x
  {
    assert x * (q - p) >= 0.0;
    assert (y - x) * q == y * q - x * q;
    assert y > x ==> (y - x) * q > 0.0;
  }

  /** Powers on opposite sides of one, or the same side. */
  lemma TwoBelowTen(b: int, t: int)
    requires (b >= 0 && t >= 0 && 28 * b <= 93 * t) || (b <= 0 && t >= 0) || (b <= 0 && t <= 0 && 2136 * -t <= 643 * -b)
    ensures Exp2(b) <= Exp10(t)
  {
    hide Exp2, Exp10, Pow2, Pow10;
    if t >= 0 {
      Exp10Up(t);
      if b >= 0 {
        Exp2Up(b);
        TwoAgainstTen(b, t);
        Pow2Base();
      } else {
        Exp2Down(-b);
        AtMostOne(Exp2(b), Pow2(-b) as real);
      }
    } else {
      Exp10Down(-t);
      Exp2Down(-b);
      TwoAgainstTen(-b, -t);
      Reciprocals(Exp10(t), Exp2(b), Pow10(-t) as real, Pow2(-b) as real);
    }
  }

  lemma AtMostOne(x: real, p: real)
    requires x * p == 1.0 && p >= 1.0 && x > 0.0
    ensures x <= 1.0
  {
    assert (x - 1.0) * p == x * p - p;
    assert x > 1.0 ==> (x - 1.0) * p > 0.0;
  }

  lemma TenBelowTwo(t: int, b: int)
    requires (b >= 0 && t >= 0 && 2136 * t <= 643 * b) || (t <= 0 && b >= 0) || (b <= 0 && t <= 0 && 28 * -b <= 93 * -t)
    ensures Exp10(t) <= Exp2(b)
  {
    hide Exp2, Exp10, Pow2, Pow10;
    if b >= 0 {
      Exp2Up(b);
      if t >= 0 {
        Exp10Up(t);
        TwoAgainstTen(b, t);
      } else {
        Exp10Down(-t);
        AtMostOne(Exp10(t), Pow10(-t) as real);
      }
    } else {
      Exp10Down(-t);
      Exp2Down(-b);
      TwoAgainstTen(-b, -t);
      Reciprocals(Exp2(b), Exp10(t), Pow2(-b) as real, Pow10(-t) as real);
    }
  }

  // ----- the estimate -----

  /** The decimal exponent from the binary one: 78913 / 2^18 for the logarithm. */
  function Estimate(binary: int): int {
    var scaled := binary * 78_913;
    scaled / 0x4_0000 + if scaled % 0x4_0000 != 0 && binary > 0 then 1 else 0
  }

  /** The estimate is at most one away, for every exponent a double can have. */
  lemma EstimateBrackets(b: int)
    requires -1100 <= b <= 1100
    ensures Exp2(b) <= Exp10(Estimate(b) + 1) && Exp10(Estimate(b) - 2) <= Exp2(b - 1)
  {
    hide Exp2, Exp10;
    var e := Estimate(b);
    TwoBelowTen(b, e + 1);
    TenBelowTwo(e - 2, b - 1);
  }
}
