/** Machine words as bounded integers, and the little-endian byte order the
    image format uses.  Shifts and masks of the source appear as division and
    remainder by powers of two; a value of a bounded type that would overflow
    is a verification error, so no wrap-around can hide. */
module Words {
  type byte = x: int | 0 <= x < 0x100
  type u32 = x: int | 0 <= x < 0x1_0000_0000
  type u64 = x: int | 0 <= x < 0x1_0000_0000_0000_0000

  const U32_MAX: u32 := 0xFFFF_FFFF
  const U64_MAX: u64 := 0xFFFF_FFFF_FFFF_FFFF
  const I32_MAX: u32 := 0x7FFF_FFFF

  datatype Option<+T> = None | Some(value: T)
  datatype Result<+T, +E> = Ok(value: T) | Err(error: E)

  function Min(a: int, b: int): int { if a <= b then a else b }

  function Max(a: int, b: int): int { if a >= b then a else b }

  /** 256 to the power `n`. */
  function Pow256(n: nat): (p: nat)
    ensures p >= 1
  {
    if n == 0 then 1 else 256 * Pow256(n - 1)
  }

  /** The number a little-endian byte sequence denotes. */
  function FromLittleEndian(bytes: seq<byte>): nat
  {
    if bytes == [] then 0 else bytes[0] + 256 * FromLittleEndian(bytes[1..])
  }

  /** The low `n` bytes of `value`, least significant first. */
  function ToLittleEndian(value: nat, n: nat): (bytes: seq<byte>)
    ensures |bytes| == n
  {
    if n == 0 then [] else [value % 256] + ToLittleEndian(value / 256, n - 1)
  }

  lemma {:induction false} LittleEndianBound(bytes: seq<byte>)
    ensures FromLittleEndian(bytes) < Pow256(|bytes|)
  {
    if bytes != [] { LittleEndianBound(bytes[1..]); }
  }

  /** Writing and reading back keeps the value modulo the width. */
  lemma {:induction false} LittleEndianWriteRead(value: nat, n: nat)
    ensures FromLittleEndian(ToLittleEndian(value, n)) == value % Pow256(n)
  {
    if n > 0 {
      var bytes := ToLittleEndian(value, n);
      assert bytes[1..] == ToLittleEndian(value / 256, n - 1);
      LittleEndianWriteRead(value / 256, n - 1);
      ModuloSplit(value, Pow256(n - 1));
    }
  }

  lemma ModuloSplit(value: nat, m: nat)
    requires m >= 1
    ensures value % (256 * m) == value % 256 + 256 * ((value / 256) % m)
  {
    var q, r := (value / 256) / m, (value / 256) % m;
    assert value / 256 == q * m + r;
    var low := value % 256 + 256 * r;
    assert value == (256 * m) * q + low by {
      assert value == 256 * (value / 256) + value % 256;
      assert 256 * (q * m + r) == (256 * m) * q + 256 * r;
    }
    assert 0 <= low < 256 * m by { assert r + 1 <= m; }
    DivisionUnique(value, 256 * m, q, low);
  }

  lemma DivisionUnique(value: int, m: int, q: int, r: int)
    requires m > 0 && value == m * q + r && 0 <= r < m
    ensures value / m == q && value % m == r
  {
    var q', r' := value / m, value % m;
    assert m * (q - q') == r' - r by { assert m * q - m * q' == m * (q - q'); }
    assert q - q' >= 1 ==> m * (q - q') >= m;
    assert q - q' <= -1 ==> m * (q - q') <= -m;
  }

  lemma {:induction false} LittleEndianAppend(bytes: seq<byte>, last: byte)
    ensures FromLittleEndian(bytes + [last]) == FromLittleEndian(bytes) + Pow256(|bytes|) * last
  {
    if bytes != [] {
      var all := bytes + [last];
      assert all[1..] == bytes[1..] + [last];
      LittleEndianAppend(bytes[1..], last);
      assert 256 * (Pow256(|bytes| - 1) * last) == Pow256(|bytes|) * last;
    }
  }

  /** Reading and writing back keeps the bytes. */
  lemma {:induction false} LittleEndianReadWrite(bytes: seq<byte>)
    ensures ToLittleEndian(FromLittleEndian(bytes), |bytes|) == bytes
  {
    if bytes != [] {
      var rest := FromLittleEndian(bytes[1..]);
      DivisionUnique(FromLittleEndian(bytes), 256, rest, bytes[0]);
      LittleEndianReadWrite(bytes[1..]);
    }
  }

  /** A stretch of a sequence that is a concatenation holds its parts in turn. */
  lemma SliceSplits<T>(s: seq<T>, a: nat, b: nat, c: nat, x: seq<T>, y: seq<T>)
    requires a <= b <= c <= |s| && s[a..c] == x + y && |x| == b - a
    ensures s[a..b] == x && s[b..c] == y
  {
    assert s[a..c][..b - a] == s[a..b] && s[a..c][b - a..] == s[b..c];
  }
}
