/** Bitwise operations on limbed integers, as on infinite two's-complement sequences. */
module BigBitwise {
  import opened Words
  import opened Powers
  import opened Limbs
  import opened BigNumbers
  import opened BigProducts
  import opened BigDivision

  datatype Operation = And | Or | Xor

  function Apply(op: Operation, a: bool, b: bool): bool {
    match op
    case And => a && b
    case Or => a || b
    case Xor => a != b
  }

  /** Bit `i` of an integer's infinite two's-complement sequence. */
  predicate Bit(x: int, i: nat) { x / Pow2(i) % 2 == 1 }

  // ----- words -----

  /** An operation on `n`-bit words. */
  function Combine(op: Operation, a: nat, b: nat, n: nat): nat {
    if n == 0 then 0
    else (if Apply(op, a % 2 == 1, b % 2 == 1) then 1 else 0) + 2 * Combine(op, a / 2, b / 2, n - 1)
  }

  lemma {:induction false} CombineBound(op: Operation, a: nat, b: nat, n: nat)
    ensures Combine(op, a, b, n) < Pow2(n)
  {
    if n > 0 { CombineBound(op, a / 2, b / 2, n - 1); }
  }

  lemma HalveFirst(x: int, p: nat)
    requires p > 0
    ensures x / (2 * p) == x / 2 / p
  {
    var h, q, r := x / 2, x / 2 / p, x / 2 % p;
    assert h == p * q + r;
    assert x == (2 * p) * q + (2 * r + x % 2) by { assert 2 * (p * q) == (2 * p) * q; }
    DivisionUnique(x, 2 * p, q, 2 * r + x % 2);
  }

  lemma {:induction false} CombineBit(op: Operation, a: nat, b: nat, n: nat, i: nat)
    requires i < n
    ensures Bit(Combine(op, a, b, n), i) == Apply(op, Bit(a, i), Bit(b, i))
    decreases n
  {
    var x := Combine(op, a, b, n);
    var y := Combine(op, a / 2, b / 2, n - 1);
    assert x / 2 == y && (x % 2 == 1 <==> Apply(op, a % 2 == 1, b % 2 == 1));
    if i == 0 {
      Pow2Base();
    } else {
      CombineBit(op, a / 2, b / 2, n - 1, i - 1);
      Pow2Next(i - 1);
      hide Pow2, Combine;
      HalveFirst(x, Pow2(i - 1));
      HalveFirst(a, Pow2(i - 1));
      HalveFirst(b, Pow2(i - 1));
    }
  }

  function WordOp(op: Operation, a: u32, b: u32): (c: u32) {
    CombineBound(op, a, b, 32);
    Pow2Of32();
    Combine(op, a, b, 32)
  }

  lemma WordBit(op: Operation, a: u32, b: u32, i: nat)
    requires i < 32
    ensures Bit(WordOp(op, a, b), i) == Apply(op, Bit(a, i), Bit(b, i))
  {
    hide Combine, Bit;
    CombineBit(op, a, b, 32, i);
  }

  // ----- sequences of words -----

  predicate Combined(op: Operation, ls: seq<u32>, rs: seq<u32>, cs: seq<u32>) {
    |ls| == |rs| == |cs| && forall k :: 0 <= k < |cs| ==> cs[k] == WordOp(op, ls[k], rs[k])
  }

  lemma TotalBit(limbs: seq<u32>, i: nat)
    requires i < 32 * |limbs|
    ensures Bit(Total(limbs), i) == Bit(limbs[i / 32], i % 32)
  {
    hide Low, Pow2;
    BitInLimb(limbs, |limbs|, i / 32, i % 32);
  }

  lemma CombinedBit(op: Operation, ls: seq<u32>, rs: seq<u32>, cs: seq<u32>, i: nat)
    requires Combined(op, ls, rs, cs) && i < 32 * |cs|
    ensures Bit(Total(cs), i) == Apply(op, Bit(Total(ls), i), Bit(Total(rs), i))
  {
    hide Bit, Total, WordOp;
    TotalBit(ls, i);
    TotalBit(rs, i);
    TotalBit(cs, i);
    WordBit(op, ls[i / 32], rs[i / 32], i % 32);
  }

  // ----- signs -----

  /** `x` in two's complement over `n` limbs. */
  ghost predicate Extends(x: int, total: nat, n: nat, negative: bool) {
    total < Base(n) && x == if negative then total - (Base(n) as int) else total
  }

  /** Within the limbs the bits are the total's; past them, the sign. */
  lemma ExtendedBit(x: int, total: nat, n: nat, negative: bool, i: nat)
    requires Extends(x, total, n, negative)
    ensures Bit(x, i) == if i < 32 * n then Bit(total, i) else negative
  {
    hide Base, Pow2;
    BaseIsPow2(n);
    if i < 32 * n {
      Pow2Sum(i, 32 * n - i);
      Pow2Next(32 * n - i - 1);
      BorrowKeeps(total, Pow2(i), Pow2(32 * n - i - 1));
    } else {
      Pow2Monotone(32 * n, i);
      if negative {
        DivisionUnique(x, Pow2(i), -1, x + Pow2(i));
      } else {
        DivisionUnique(x, Pow2(i), 0, x);
      }
    }
  }

  lemma BorrowKeeps(total: nat, p: nat, c: nat)
    requires p > 0
    ensures (total - p * (2 * c)) / p % 2 == total / p % 2
  {
    var q, r := total / p, total % p;
    assert total == p * q + r;
    assert total - p * (2 * c) == p * (q - 2 * c) + r by { assert p * (q - 2 * c) == p * q - p * (2 * c); }
    DivisionUnique(total - p * (2 * c), p, q - 2 * c, r);
  }

  /** A number with a limb to spare has its sign in its last bit. */
  lemma SignBit(x: int, n: nat, negative: bool)
    requires n > 0 && (if negative then -(Base(n - 1) as int) <= x < 0 else 0 <= x < Base(n - 1))
    ensures Bit(x, 32 * n - 1) == negative
  {
    hide Base, Pow2;
    BaseIsPow2(n - 1);
    Pow2Monotone(32 * (n - 1), 32 * n - 1);
    var p := Pow2(32 * n - 1);
    if negative { DivisionUnique(x, p, -1, x + p); } else { DivisionUnique(x, p, 0, x); }
  }

  /** The operation carries the signs like any other bit. */
  lemma SignsCombine(op: Operation, x: int, y: int, n: nat, xn: bool, yn: bool, ls: seq<u32>, rs: seq<u32>, cs: seq<u32>)
    requires n > 0 && |cs| == n && Combined(op, ls, rs, cs)
    requires Extends(x, Total(ls), n, xn) && Extends(y, Total(rs), n, yn)
    requires if xn then -(Base(n - 1) as int) <= x < 0 else 0 <= x < Base(n - 1)
    requires if yn then -(Base(n - 1) as int) <= y < 0 else 0 <= y < Base(n - 1)
    ensures Bit(Total(cs), 32 * n - 1) == Apply(op, xn, yn)
  {
    hide Bit, Total, Base, Combined, Extends;
    SignBit(x, n, xn);
    SignBit(y, n, yn);
    ExtendedBit(x, Total(ls), n, xn, 32 * n - 1);
    ExtendedBit(y, Total(rs), n, yn, 32 * n - 1);
    CombinedLength(op, ls, rs, cs);
    CombinedBit(op, ls, rs, cs, 32 * n - 1);
  }

  lemma CombinedLength(op: Operation, ls: seq<u32>, rs: seq<u32>, cs: seq<u32>)
    requires Combined(op, ls, rs, cs)
    ensures |ls| == |rs| == |cs|
  {}

  ghost predicate BitsAgree(op: Operation, x: int, y: int, z: int) {
    forall i: nat :: Bit(z, i) == Apply(op, Bit(x, i), Bit(y, i))
  }

  /** Sign-extended operands give the sign-extended result. */
  lemma AllBits(op: Operation, x: int, y: int, z: int, n: nat, xn: bool, yn: bool, ls: seq<u32>, rs: seq<u32>, cs: seq<u32>)
    requires |cs| == n && Combined(op, ls, rs, cs)
    requires Extends(x, Total(ls), n, xn) && Extends(y, Total(rs), n, yn) && Extends(z, Total(cs), n, Apply(op, xn, yn))
    ensures BitsAgree(op, x, y, z)
  {
    hide Bit, Total, Combined, Extends;
    CombinedLength(op, ls, rs, cs);
    forall i: nat ensures Bit(z, i) == Apply(op, Bit(x, i), Bit(y, i)) {
      ExtendedBit(x, Total(ls), n, xn, i);
      ExtendedBit(y, Total(rs), n, yn, i);
      ExtendedBit(z, Total(cs), n, Apply(op, xn, yn), i);
      if i < 32 * n { CombinedBit(op, ls, rs, cs, i); }
    }
  }

  // ----- complementing -----

  /** `out` is the first `|out|` limbs of the two's complement of `limbs`, `borrow` still to add. */
  ghost predicate Complements(limbs: seq<u32>, out: seq<u32>, borrow: nat) {
    |out| <= |limbs| && Total(out) + borrow * Base(|out|) == Base(|out|) - Low(limbs, |out|)
  }

  lemma TotalAppend(limbs: seq<u32>, x: u32)
    ensures Total(limbs + [x]) == Total(limbs) + x * Base(|limbs|)
  {
    LowAgrees(limbs + [x], limbs, |limbs|);
    LowNext(limbs + [x], |limbs|);
  }

  /** One limb complemented, and what it carries. */
  function Complemented(limb: u32, borrow: nat): (r: (u32, nat))
    requires borrow <= 1
    ensures r.1 <= 1 && r.0 + LIMB * r.1 == LIMB - 1 - limb + borrow
  {
    var sum := LIMB - 1 - limb + borrow;
    (sum % LIMB, sum / LIMB)
  }

  lemma ComplementsNext(limbs: seq<u32>, out: seq<u32>, borrow: nat)
    requires Complements(limbs, out, borrow) && |out| < |limbs| && borrow <= 1
    ensures var (t, b) := Complemented(limbs[|out|], borrow); Complements(limbs, out + [t], b)
  {
    hide Low, Base, Total;
    var k := |out|;
    var (t, b) := Complemented(limbs[k], borrow);
    TotalAppend(out, t);
    LowNext(limbs, k);
    BaseNext(k);
    ComplementAlgebra(Base(k), t, b, limbs[k], borrow);
  }

  lemma ComplementAlgebra(w: nat, t: int, b: int, limb: int, borrow: int)
    requires t + LIMB * b == LIMB - 1 - limb + borrow
    ensures t * w + b * (LIMB * w) == LIMB * w - w - limb * w + borrow * w
  {
    assert (t + LIMB * b) * w == t * w + b * (LIMB * w);
    assert (LIMB - 1 - limb + borrow) * w == LIMB * w - w - limb * w + borrow * w;
  }

  /** A non-zero number's complement leaves no borrow. */
  lemma ComplementsAll(limbs: seq<u32>, out: seq<u32>, borrow: nat)
    requires Complements(limbs, out, borrow) && borrow <= 1 && Low(limbs, |out|) > 0
    ensures Total(out) == Base(|out|) - Low(limbs, |out|)
  {
    hide Low, Base;
  }

  /** The limbs read so far of one operand. */
  ghost predicate Reads(v: Number, out: seq<u32>, borrow: nat) {
    && Shaped(v) && |out| <= WORK_LIMBS
    && if v.negative then Complements(v.limbs, out, borrow) else Total(out) == Low(v.limbs, |out|)
  }

  lemma NothingRead(v: Number)
    requires Shaped(v)
    ensures Reads(v, [], 1)
  {}

  /** The limb a value shows at this place when negatives are written modulo a power of two. */
  method TwosComplementLimb(v: Number, index: nat, borrow: nat, ghost out: seq<u32>) returns (limb: u32, borrow': nat)
    requires Reads(v, out, borrow) && |out| == index < WORK_LIMBS && borrow <= 1
    ensures Reads(v, out + [limb], borrow') && borrow' <= 1
  {
    hide Low, Base, Total, Complements;
    limb, borrow' := LimbOf(v, index), borrow;
    if !v.negative {
      TotalAppend(out, limb);
      LowNext(v.limbs, index);
      return;
    }
    ComplementsNext(v.limbs, out, borrow);
    var (t, b) := Complemented(limb, borrow);
    limb, borrow' := t, b;
  }

  lemma ReadsExtend(v: Number, out: seq<u32>, borrow: nat)
    requires Trimmed(v) && Reads(v, out, borrow) && borrow <= 1 && v.length < |out|
    ensures Extends(Int(v), Total(out), |out|, v.negative)
    ensures if v.negative then -(Base(|out| - 1) as int) <= Int(v) < 0 else 0 <= Int(v) < Base(|out| - 1)
  {
    hide Low, Base, Total;
    SizeOf(v, |out|);
    LengthOf(v);
    BaseMonotone(v.length, |out| - 1);
    BaseMonotone(v.length, |out|);
    if v.negative { ComplementsAll(v.limbs, out, borrow); }
  }

  /** And, or, exclusive or: bit for bit those of the two infinite sequences. */
  method Bitwise(op: Operation, left: Number, right: Number) returns (r: Number, ok: bool)
    requires Trimmed(left) && Trimmed(right)
    ensures ok <==> Max(left.length, right.length) < WORK_LIMBS
    ensures ok ==> Trimmed(r) && BitsAgree(op, Int(left), Int(right), Int(r))
  {
    hide Low, Base, Total, Reads, Complements, WordOp, BitsAgree, Extends;
    var length := Max(left.length, right.length) + 1;
    if length > WORK_LIMBS { return ZERO, false; }
    var limbs: seq<u32>, index := [], 0;
    var leftBorrow, rightBorrow, carry := 1, 1, 1;
    var negative := Apply(op, left.negative, right.negative);
    ghost var ls: seq<u32>, rs: seq<u32>, cs: seq<u32> := [], [], [];
    NothingRead(left);
    NothingRead(right);
    NothingDone(negative);
    while index < length
      invariant 0 <= index <= length && |ls| == |rs| == |cs| == |limbs| == index
      invariant leftBorrow <= 1 && rightBorrow <= 1 && carry <= 1
      invariant Reads(left, ls, leftBorrow) && Reads(right, rs, rightBorrow)
      invariant Combined(op, ls, rs, cs) && Writes(negative, cs, limbs, carry)
    {
      var l, r;
      l, leftBorrow := TwosComplementLimb(left, index, leftBorrow, ls);
      r, rightBorrow := TwosComplementLimb(right, index, rightBorrow, rs);
      var combined := WordOp(op, l, r);
      WritesNext(negative, cs, limbs, carry, combined);
      if negative {
        var (t, c) := Complemented(combined, carry);
        limbs, carry := limbs + [t], c;
      } else {
        limbs := limbs + [combined];
      }
      ls, rs, cs := ls + [l], rs + [r], cs + [combined];
      index := index + 1;
    }
    ReadsExtend(left, ls, leftBorrow);
    ReadsExtend(right, rs, rightBorrow);
    SignsCombine(op, Int(left), Int(right), length, left.negative, right.negative, ls, rs, cs);
    WritesExtend(negative, cs, limbs, carry);
    r := Number(negative, limbs + Zeros()[length..], length);
    Padded(limbs, r);
    AllBits(op, Int(left), Int(right), Int(r), length, left.negative, right.negative, ls, rs, cs);
    r := Trim(r);
    ok := true;
  }

  /** What has been written of the result: its magnitude, complemented back when negative. */
  ghost predicate Writes(negative: bool, cs: seq<u32>, limbs: seq<u32>, carry: nat) {
    |cs| == |limbs| && if negative then Complements(cs, limbs, carry) else limbs == cs
  }

  lemma NothingDone(negative: bool)
    ensures Writes(negative, [], [], 1)
  {}

  lemma WritesNext(negative: bool, cs: seq<u32>, limbs: seq<u32>, carry: nat, c: u32)
    requires Writes(negative, cs, limbs, carry) && carry <= 1
    ensures negative ==> var (t, b) := Complemented(c, carry); Writes(negative, cs + [c], limbs + [t], b)
    ensures !negative ==> Writes(negative, cs + [c], limbs + [c], carry)
  {
    hide Low, Base, Total;
    if negative {
      LowAgrees(cs, cs + [c], |limbs|);
      ComplementsNext(cs + [c], limbs, carry);
    }
  }

  lemma WritesExtend(negative: bool, cs: seq<u32>, limbs: seq<u32>, carry: nat)
    requires Writes(negative, cs, limbs, carry) && carry <= 1 && |cs| > 0
    requires Bit(Total(cs), 32 * |cs| - 1) == negative
    ensures var s: int := Total(limbs); Extends(if negative then -s else s, Total(cs), |cs|, negative)
  {
    hide Low, Base, Pow2;
    LowBound(cs, |cs|);
    if negative {
      assert Total(cs) > 0 by { if Total(cs) == 0 { DivisionUnique(0, Pow2(32 * |cs| - 1), 0, 0); } }
      ComplementsAll(cs, limbs, carry);
    }
  }

  lemma Padded(limbs: seq<u32>, r: Number)
    requires |limbs| <= WORK_LIMBS && r.length == |limbs| && r.limbs == limbs + Zeros()[|limbs|..]
    ensures Shaped(r) && Size(r) == Total(limbs)
  {
    LowAgrees(limbs, r.limbs, |limbs|);
  }

  // ----- bits determine the integer -----

  /** Two integers with the same bits are equal. */
  lemma {:induction false} BitsDetermine(x: int, y: int)
    requires forall i: nat :: Bit(x, i) == Bit(y, i)
    ensures x == y
    decreases (if x < 0 then -x else x) + (if y < 0 then -y else y)
  {
    assert Bit(x, 0) == Bit(y, 0) && Pow2(0) == 1;
    if !((x == 0 || x == -1) && (y == 0 || y == -1)) {
      forall i: nat ensures Bit(x / 2, i) == Bit(y / 2, i) {
        assert Bit(x, i + 1) == Bit(y, i + 1);
        Pow2Next(i);
        HalveFirst(x, Pow2(i));
        HalveFirst(y, Pow2(i));
      }
      BitsDetermine(x / 2, y / 2);
    }
  }

  /** In numbers: what two operands share and what either has add up to both, and so do
      what only one has and twice what they share. */
  lemma {:induction false} BitsAddUp(x: int, y: int, both: int, either: int, one: int)
    requires BitsAgree(And, x, y, both) && BitsAgree(Or, x, y, either) && BitsAgree(Xor, x, y, one)
    ensures both + either == x + y && one + 2 * both == x + y
    decreases Together(x, y, both, either, one)
  {
    LowestAddUp(x, y, both, either, one);
    HalfSmaller(x);
    HalfSmaller(y);
    HalfSmaller(both);
    HalfSmaller(either);
    HalfSmaller(one);
    hide BitsAgree, Small, Magnitude;
    if Small(x) && Small(y) && Small(both) && Small(either) && Small(one) {
      SmallAddUp(x, y, both, either, one);
    } else {
      BitsAddUp(x / 2, y / 2, both / 2, either / 2, one / 2);
    }
  }

  predicate Small(x: int) { x == 0 || x == -1 }

  function Magnitude(x: int): nat { if x < 0 then -x else x }

  function Together(x: int, y: int, both: int, either: int, one: int): nat {
    Magnitude(x) + Magnitude(y) + Magnitude(both) + Magnitude(either) + Magnitude(one)
  }

  lemma HalfSmaller(x: int)
    ensures Magnitude(x / 2) <= Magnitude(x) && (!Small(x) ==> Magnitude(x / 2) < Magnitude(x)) && x == 2 * (x / 2) + x % 2
  {}

  lemma LowestAddUp(x: int, y: int, both: int, either: int, one: int)
    requires BitsAgree(And, x, y, both) && BitsAgree(Or, x, y, either) && BitsAgree(Xor, x, y, one)
    ensures both % 2 + either % 2 == x % 2 + y % 2 && one % 2 + 2 * (both % 2) == x % 2 + y % 2
    ensures BitsAgree(And, x / 2, y / 2, both / 2) && BitsAgree(Or, x / 2, y / 2, either / 2) && BitsAgree(Xor, x / 2, y / 2, one / 2)
  {
    LowestBits(And, x, y, both);
    LowestBits(Or, x, y, either);
    LowestBits(Xor, x, y, one);
    hide BitsAgree;
  }

  lemma SmallAddUp(x: int, y: int, both: int, either: int, one: int)
    requires Small(x) && Small(y) && Small(both) && Small(either) && Small(one)
    requires both % 2 + either % 2 == x % 2 + y % 2 && one % 2 + 2 * (both % 2) == x % 2 + y % 2
    ensures both + either == x + y && one + 2 * both == x + y
  {}

  /** The lowest bit, and the number without it. */
  lemma LowestBits(op: Operation, x: int, y: int, z: int)
    requires BitsAgree(op, x, y, z)
    ensures z % 2 == 1 <==> Apply(op, x % 2 == 1, y % 2 == 1)
    ensures BitsAgree(op, x / 2, y / 2, z / 2)
  {
    hide Apply;
    assert Pow2(0) == 1 && Bit(z, 0) == Apply(op, Bit(x, 0), Bit(y, 0));
    forall i: nat ensures Bit(z / 2, i) == Apply(op, Bit(x / 2, i), Bit(y / 2, i)) {
      assert Bit(z, i + 1) == Apply(op, Bit(x, i + 1), Bit(y, i + 1));
      Pow2Next(i);
      HalveFirst(x, Pow2(i));
      HalveFirst(y, Pow2(i));
      HalveFirst(z, Pow2(i));
    }
  }
}
