/** The compiler's code generator: instructions written, moved and patched in a
    buffer its caller lends it. */
module PatternCompiler {
  import opened Words
  import opened PatternPrograms
  import opened PatternTrees
  import opened PatternMeaning
  import opened PatternTheorems

  datatype PatternError = InvalidQuantifier | TooLarge

  /** A quantifier with this upper bound has none. */
  const UNBOUNDED: u32 := U32_MAX
  const MAX_PROGRAM := 2048
  const MAX_REPEAT_COPIES := 64

  function Bound(max: u32): Option<nat> { if max == UNBOUNDED then None else Some(max) }

  // ----- patching -----

  function Patched(s: seq<byte>, at: nat, v: int): seq<byte>
    requires at + 2 <= |s|
  {
    s[..at] + U16(v) + s[at + 2..]
  }

  lemma PatchedInside(x: seq<byte>, w: int, y: seq<byte>, v: int)
    ensures Patched(x + U16(w) + y, |x|, v) == x + U16(v) + y
  {
    hide U16;
    var s := x + U16(w) + y;
    assert s[..|x|] == x && s[|x| + 2..] == y;
  }

  /** Both displacements of a split, with `rest` after it. */
  lemma PatchedSplit(x: seq<byte>, rest: seq<byte>, first: int, second: int)
    ensures var s := x + SplitBytes(0, 0) + rest;
            Patched(Patched(s, |x| + 1, first), |x| + 3, second) == x + SplitBytes(first, second) + rest
  {
    hide U16, Patched;
    var s := x + SplitBytes(0, 0) + rest;
    var head := x + [SPLIT];
    assert s == head + U16(0) + (U16(0) + rest);
    PatchedInside(head, 0, U16(0) + rest, first);
    var once := head + U16(first) + (U16(0) + rest);
    assert once == (head + U16(first)) + U16(0) + rest;
    PatchedInside(head + U16(first), 0, rest, second);
    assert (head + U16(first)) + U16(second) + rest == x + SplitBytes(first, second) + rest;
  }

  lemma PatchedJump(x: seq<byte>, w: int, rest: seq<byte>, v: int)
    ensures Patched(x + JumpBytes(w) + rest, |x| + 1, v) == x + JumpBytes(v) + rest
  {
    hide U16, Patched;
    assert x + JumpBytes(w) + rest == (x + [JUMP]) + U16(w) + rest;
    PatchedInside(x + [JUMP], w, rest, v);
    assert (x + [JUMP]) + U16(v) + rest == x + JumpBytes(v) + rest;
  }

  // ----- optional turns before their ends are known -----

  function Links(a: seq<byte>, skips: seq<int>, isLazy: bool): (s: seq<byte>)
    ensures |s| == |skips| * (5 + |a|)
  {
    if skips == [] then [] else EnterOrSkip(4, skips[0], isLazy) + a + Links(a, skips[1..], isLazy)
  }

  lemma {:induction false} LinksAppend(a: seq<byte>, skips: seq<int>, skip: int, isLazy: bool)
    ensures Links(a, skips + [skip], isLazy) == Links(a, skips, isLazy) + EnterOrSkip(4, skip, isLazy) + a
  {
    hide EnterOrSkip;
    if skips != [] {
      assert (skips + [skip])[1..] == skips[1..] + [skip];
      LinksAppend(a, skips[1..], skip, isLazy);
    }
  }

  /** Patching the end of turn `i`. */
  lemma {:induction false} LinksPatch(x: seq<byte>, a: seq<byte>, skips: seq<int>, isLazy: bool, i: nat, v: int)
    requires i < |skips|
    ensures 0 <= i * (5 + |a|) && |x| + i * (5 + |a|) + 5 <= |x + Links(a, skips, isLazy)|
    ensures Patched(x + Links(a, skips, isLazy), |x| + i * (5 + |a|) + 1 + (if isLazy then 0 else 2), v)
         == x + Links(a, skips[i := v], isLazy)
    decreases i
  {
    hide EnterOrSkip, Patched;
    ProductSteps(i, |skips|, 5 + |a|);
    if i == 0 {
      FirstLink(x, a, skips, isLazy, v);
    } else {
      var y := x + EnterOrSkip(4, skips[0], isLazy) + a;
      LinksPatch(y, a, skips[1..], isLazy, i - 1, v);
      OneLinkOn(i, 5 + |a|);
      LaterLink(x, a, skips, isLazy);
      LaterLink(x, a, skips[i := v], isLazy);
      assert skips[i := v][1..] == skips[1..][i - 1 := v];
    }
  }

  lemma OneLinkOn(i: nat, step: nat)
    requires i > 0
    ensures step + (i - 1) * step == i * step
  {}

  lemma LaterLink(x: seq<byte>, a: seq<byte>, skips: seq<int>, isLazy: bool)
    requires skips != []
    ensures x + Links(a, skips, isLazy) == x + EnterOrSkip(4, skips[0], isLazy) + a + Links(a, skips[1..], isLazy)
  {
    var e, rest := EnterOrSkip(4, skips[0], isLazy), Links(a, skips[1..], isLazy);
    assert Links(a, skips, isLazy) == e + a + rest;
    hide EnterOrSkip, Links;
    assert x + (e + a + rest) == x + e + a + rest;
  }

  lemma FirstLink(x: seq<byte>, a: seq<byte>, skips: seq<int>, isLazy: bool, v: int)
    requires skips != []
    ensures |x| + 5 <= |x + Links(a, skips, isLazy)|
    ensures Patched(x + Links(a, skips, isLazy), |x| + 1 + (if isLazy then 0 else 2), v) == x + Links(a, skips[0 := v], isLazy)
  {
    hide EnterOrSkip, Patched, Links;
    LaterLink(x, a, skips, isLazy);
    LaterLink(x, a, skips[0 := v], isLazy);
    assert skips[0 := v][1..] == skips[1..];
    FirstPatch(x, a, Links(a, skips[1..], isLazy), skips[0], isLazy, v);
  }

  lemma FirstPatch(x: seq<byte>, a: seq<byte>, rest: seq<byte>, skip: int, isLazy: bool, v: int)
    ensures Patched(x + EnterOrSkip(4, skip, isLazy) + a + rest, |x| + 1 + (if isLazy then 0 else 2), v)
         == x + EnterOrSkip(4, v, isLazy) + a + rest
  {
    hide EnterOrSkip, Patched;
    SkipPatch(x, a + rest, skip, isLazy, v);
    var was, now := x + EnterOrSkip(4, skip, isLazy), x + EnterOrSkip(4, v, isLazy);
    assert was + a + rest == was + (a + rest);
    assert now + a + rest == now + (a + rest);
  }

  lemma ProductSteps(i: nat, n: nat, L: nat)
    requires i < n
    ensures 0 <= i * L && i * L + L <= n * L
  {
    assert (i + 1) * L <= n * L;
  }

  lemma SkipPatch(x: seq<byte>, rest: seq<byte>, skip: int, isLazy: bool, v: int)
    ensures Patched(x + EnterOrSkip(4, skip, isLazy) + rest, |x| + 1 + (if isLazy then 0 else 2), v)
         == x + EnterOrSkip(4, v, isLazy) + rest
  {
    hide U16, Patched;
    if isLazy {
      assert x + EnterOrSkip(4, skip, isLazy) + rest == (x + [SPLIT]) + U16(skip) + (U16(4) + rest);
      PatchedInside(x + [SPLIT], skip, U16(4) + rest, v);
      assert (x + [SPLIT]) + U16(v) + (U16(4) + rest) == x + EnterOrSkip(4, v, isLazy) + rest;
    } else {
      assert x + EnterOrSkip(4, skip, isLazy) + rest == (x + [SPLIT] + U16(4)) + U16(skip) + rest;
      PatchedInside(x + [SPLIT] + U16(4), skip, rest, v);
      assert (x + [SPLIT] + U16(4)) + U16(v) + rest == x + EnterOrSkip(4, v, isLazy) + rest;
    }
  }

  /** The displacement from turn `i` of `k` to the end of them all. */
  function Ending(a: seq<byte>, k: nat, i: nat): int
    requires i < k
  {
    (k - i) * (5 + |a|) - 1
  }

  lemma {:induction false} LinksChain(a: seq<byte>, k: nat, isLazy: bool, skips: seq<int>)
    requires |skips| == k && forall i :: 0 <= i < k ==> skips[i] == Ending(a, k, i)
    ensures Links(a, skips, isLazy) == ChainCode(a, k, isLazy)
    decreases k
  {
    hide EnterOrSkip;
    if k > 0 {
      forall i | 0 <= i < k - 1 ensures skips[1..][i] == Ending(a, k - 1, i) { assert skips[i + 1] == Ending(a, k, i + 1); }
      LinksChain(a, k - 1, isLazy, skips[1..]);
      assert skips[0] == Ending(a, k, 0);
      assert k * (5 + |a|) == (k - 1) * (5 + |a|) + 5 + |a|;
    }
  }

  lemma {:induction false} ChainLength(a: seq<byte>, k: nat, isLazy: bool)
    ensures |ChainCode(a, k, isLazy)| == k * (5 + |a|)
  {
    hide EnterOrSkip;
    if k > 0 {
      ChainLength(a, k - 1, isLazy);
      OneLinkOn(k, 5 + |a|);
    }
  }

  lemma {:induction false} CopiesLength(a: seq<byte>, k: nat)
    ensures |Copies(a, k)| == k * |a|
  {
    if k > 0 {
      CopiesLength(a, k - 1);
      OneLinkOn(k, |a|);
    }
  }

  /** The first copies of a repetition take no more room than the whole of it. */
  lemma FewerCopies(a: seq<byte>, turn: nat, min: nat)
    requires turn < min
    ensures |Copies(a, turn)| + |a| <= |Copies(a, min)|
  {
    CopiesLength(a, turn);
    CopiesLength(a, min);
    ProductSteps(turn, min, |a|);
  }

  lemma {:induction false} CopiesAppend(a: seq<byte>, k: nat)
    ensures Copies(a, k) + a == Copies(a, k + 1)
  {
    if k > 0 {
      CopiesAppend(a, k - 1);
      assert a + Copies(a, k - 1) + a == a + (Copies(a, k - 1) + a);
    } else {
      assert Copies(a, 0) + a == a + Copies(a, 0);
    }
  }

  // ----- trees -----

  function Groups(t: Regex): nat {
    match t
    case Empty => 0
    case Atom(_) => 0
    case Then(left, right) => Groups(left) + Groups(right)
    case Either(left, right) => Groups(left) + Groups(right)
    case Repeat(body, _, _, _) => Groups(body)
    case Group(_, body) => 1 + Groups(body)
  }

  /** What the parser hands over: groups numbered as they open, bounds in order. */
  predicate Parsed(t: Regex, before: nat) {
    match t
    case Empty => true
    case Atom(instr) => Encodable(instr)
    case Then(left, right) => Parsed(left, before) && Parsed(right, before + Groups(left))
    case Either(left, right) => Parsed(left, before) && Parsed(right, before + Groups(left))
    case Repeat(body, min, max, _) => Parsed(body, before) && min <= U32_MAX && (max.Some? ==> min <= max.value < UNBOUNDED)
    case Group(index, body) => index == before + 1 && Parsed(body, before + 1)
  }

  /** Turns are written out, at most so many of them, unless one loop does. */
  predicate FewCopies(min: nat, max: Option<nat>) {
    || (max.None? && min <= 1) || (min == 0 && max == Some(1))
    || min + (if max.Some? && max.value > min then max.value - min else 0) <= MAX_REPEAT_COPIES
  }

  /** In plain numbers: at most 64 turns written out, those of the upper bound or, where
      there is none, those required. */
  lemma FewCopiesIs(min: nat, max: Option<nat>)
    requires max.Some? ==> min <= max.value
    ensures FewCopies(min, max) <==> if max.None? then min <= 64 else max.value <= 64
  {}

  /** What quantifying the code `a`, written at `used`, comes to. */
  function QuantifierVerdict(a: seq<byte>, min: nat, max: Option<nat>, isLazy: bool, used: nat, capacity: nat): Option<PatternError> {
    if a == [] then Some(InvalidQuantifier)
    else if |a| <= MAX_PROGRAM && FewCopies(min, max) && used + |RepeatCode(a, min, max, isLazy)| <= capacity then None
    else Some(TooLarge)
  }

  /** No quantifier applies to an empty body. */
  predicate Solid(t: Regex) {
    match t
    case Empty => true
    case Atom(_) => true
    case Then(left, right) => Solid(left) && Solid(right)
    case Either(left, right) => Solid(left) && Solid(right)
    case Repeat(body, _, _, _) => Code(body) != [] && Solid(body)
    case Group(_, body) => Solid(body)
  }

  /** Nothing that is moved is too long to move, and no repetition is written out too often. */
  predicate Modest(t: Regex) {
    match t
    case Empty => true
    case Atom(_) => true
    case Then(left, right) => Modest(left) && Modest(right)
    case Either(left, right) => |Code(left)| <= MAX_PROGRAM && Modest(left) && Modest(right)
    case Repeat(body, min, max, _) => |Code(body)| <= MAX_PROGRAM && FewCopies(min, max) && Modest(body)
    case Group(_, body) => Modest(body)
  }

  function Larger(a: nat, b: nat): nat { if a < b then b else a }

  /** The most room the code of `t` takes while it is generated; a body repeated
      zero times takes room that its code gives back. */
  function Peak(t: Regex): nat {
    match t
    case Empty => 0
    case Atom(instr) => |Encoded(instr)|
    case Then(left, right) => Larger(Peak(left), |Code(left)| + Peak(right))
    case Either(left, right) => Larger(Peak(left), 8 + |Code(left)| + Peak(right))
    case Repeat(body, min, max, isLazy) => Larger(Peak(body), |RepeatCode(Code(body), min, max, isLazy)|)
    case Group(_, body) => Larger(2 + Peak(body), 4 + |Code(body)|)
  }

  /** Code is generated exactly for trees that fit. */
  predicate Compilable(t: Regex, groups: nat, used: nat, capacity: nat) {
    Solid(t) && Modest(t) && groups + Groups(t) <= MAX_GROUPS && used + Peak(t) <= capacity
  }

  class Compiler {
    const out: array<byte>
    var length: nat
    var groups: nat

    constructor (out: array<byte>)
      requires out.Length <= FAR
      ensures this.out == out && Valid() && Written() == [] && groups == 0
    {
      this.out, length, groups := out, 0, 0;
    }

    ghost predicate Valid()
      reads this`length
    {
      length <= out.Length <= FAR
    }

    ghost function Written(): (s: seq<byte>)
      requires Valid()
      reads this`length, out
      ensures |s| == length
    {
      out[..length]
    }

    method Emit(b: byte) returns (ok: bool)
      requires Valid()
      modifies this`length, out
      ensures Valid() && ok == (old(length) < out.Length)
      ensures ok ==> Written() == old(Written()) + [b]
    {
      if length >= out.Length { return false; }
      out[length] := b;
      length := length + 1;
      return true;
    }

    method EmitU16(v: int) returns (ok: bool)
      requires Valid()
      modifies this`length, out
      ensures Valid() && ok == (old(length) + 2 <= out.Length)
      ensures ok ==> Written() == old(Written()) + U16(v)
    {
      ok := Emit(v % 256);
      if !ok { return; }
      ok := Emit(v / 256 % 256);
    }

    method PatchI16(at: nat, v: int)
      requires Valid() && at + 2 <= length
      modifies out
      ensures Valid() && Written() == Patched(old(Written()), at, v)
    {
      out[at] := v % 256;
      out[at + 1] := v / 256 % 256;
    }

    /** Append the bytes of a body. */
    method CopyRangeFrom(buffer: seq<byte>) returns (ok: bool)
      requires Valid()
      modifies this`length, out
      ensures Valid() && ok == (old(length) + |buffer| <= out.Length)
      ensures ok ==> Written() == old(Written()) + buffer
    {
      var index := 0;
      while index < |buffer|
        invariant 0 <= index <= |buffer| && Valid()
        invariant Written() == old(Written()) + buffer[..index]
      {
        ok := Emit(buffer[index]);
        if !ok { return; }
        index := index + 1;
      }
      ok := true;
    }

    /** A split whose displacements are not known yet. */
    method EmitSplit() returns (ok: bool, splitAt: nat)
      requires Valid()
      modifies this`length, out
      ensures Valid() && splitAt == old(length) + 1 && ok == (old(length) + 5 <= out.Length)
      ensures ok ==> Written() == old(Written()) + SplitBytes(0, 0)
    {
      splitAt := length + 1;
      ok := Emit(SPLIT);
      if !ok { return; }
      ok := EmitU16(0);
      if !ok { return; }
      ok := EmitU16(0);
    }

    method EmitJump() returns (ok: bool, jumpAt: nat)
      requires Valid()
      modifies this`length, out
      ensures Valid() && jumpAt == old(length) + 1 && ok == (old(length) + 3 <= out.Length)
      ensures ok ==> Written() == old(Written()) + JumpBytes(0)
    {
      jumpAt := length + 1;
      ok := Emit(JUMP);
      if !ok { return; }
      ok := EmitU16(0);
    }

    /** Direct a split to the body at `enter` or past it at `after`. */
    method Direct(splitAt: nat, enter: nat, after: nat, isLazy: bool, ghost x: seq<byte>, ghost rest: seq<byte>)
      requires Valid() && Written() == x + SplitBytes(0, 0) + rest && splitAt == |x| + 1
      modifies out
      ensures Valid() && Written() == x + EnterOrSkip(enter - splitAt, after - splitAt, isLazy) + rest
    {
      hide Patched, SplitBytes, Written;
      var first, second := if isLazy then after else enter, if isLazy then enter else after;
      PatchedSplit(x, rest, first - splitAt, second - splitAt);
      PatchI16(splitAt, first - splitAt);
      PatchI16(splitAt + 2, second - splitAt);
    }

    /** `x*`: a split, the body, and a jump back to the split. */
    method EmitStar(buffer: seq<byte>, isLazy: bool) returns (ok: bool)
      requires Valid()
      modifies this`length, out
      ensures Valid() && ok == (old(length) + |StarCode(buffer, isLazy)| <= out.Length)
      ensures ok ==> Written() == old(Written()) + StarCode(buffer, isLazy)
    {
      hide *;
      ghost var x := Written();
      StarLayout(x, buffer, isLazy);
      var splitAt: int, jumpAt: int;
      ok, splitAt := EmitSplit();
      if !ok { return; }
      var enter := length;
      ok := CopyRangeFrom(buffer);
      if !ok { return; }
      ok, jumpAt := EmitJump();
      if !ok { return; }
      var after := length;
      Direct(splitAt, enter, after, isLazy, x, buffer + JumpBytes(0));
      PatchI16(jumpAt, splitAt - 1 - jumpAt);
    }

    /** `x+`: the body once, then a choice of another turn or going on. */
    method EmitPlus(buffer: seq<byte>, isLazy: bool) returns (ok: bool)
      requires Valid()
      modifies this`length, out
      ensures Valid() && ok == (old(length) + |PlusCode(buffer, isLazy)| <= out.Length)
      ensures ok ==> Written() == old(Written()) + PlusCode(buffer, isLazy)
    {
      hide *;
      ghost var x := Written();
      PlusLayout(x, buffer, isLazy);
      var enter := length;
      ok := CopyRangeFrom(buffer);
      if !ok { return; }
      var splitAt;
      ok, splitAt := EmitSplit();
      if !ok { return; }
      Direct(splitAt, enter, length, isLazy, x + buffer, []);
    }

    /** `x?`: a split that enters the body or goes past it. */
    method EmitOptional(buffer: seq<byte>, isLazy: bool) returns (ok: bool)
      requires Valid()
      modifies this`length, out
      ensures Valid() && ok == (old(length) + |ChainCode(buffer, 1, isLazy)| <= out.Length)
      ensures ok ==> Written() == old(Written()) + ChainCode(buffer, 1, isLazy)
    {
      hide *;
      ghost var x := Written();
      OptionalLayout(x, buffer, isLazy);
      var splitAt;
      ok, splitAt := EmitSplit();
      if !ok { return; }
      var enter := length;
      ok := CopyRangeFrom(buffer);
      if !ok { return; }
      Direct(splitAt, enter, length, isLazy, x, buffer);
    }

    /** Optional turns: each split's way in at once, its way out not yet known. */
    method EmitLinks(buffer: seq<byte>, count: nat, isLazy: bool) returns (ok: bool, splits: seq<nat>, ghost skips: seq<int>)
      requires Valid()
      modifies this`length, out
      ensures Valid() && ok == (old(length) + count * (5 + |buffer|) <= out.Length)
      ensures ok ==> |splits| == |skips| == count && Written() == old(Written()) + Links(buffer, skips, isLazy)
      ensures ok ==> forall i :: 0 <= i < count ==> splits[i] == old(length) + i * (5 + |buffer|) + 1
    {
      hide Links, SplitBytes, EnterOrSkip, Patched, Written;
      ghost var x := Written();
      NoLinks(x, buffer, isLazy);
      splits, skips := [], [];
      var turn := 0;
      while turn < count
        invariant 0 <= turn <= count && Valid() && |splits| == |skips| == turn
        invariant Written() == x + Links(buffer, skips, isLazy)
        invariant forall i :: 0 <= i < turn ==> splits[i] == |x| + i * (5 + |buffer|) + 1
      {
        ghost var before := Written();
        var splitAt;
        ProductSteps(turn, count, 5 + |buffer|);
        assert length == |x| + turn * (5 + |buffer|);
        ok, splitAt := EmitSplit();
        if !ok { return; }
        var enter := length;
        splits := splits + [splitAt];
        WayIn(before, isLazy);
        PatchI16(splitAt + if isLazy then 2 else 0, enter - splitAt);
        ok := CopyRangeFrom(buffer);
        if !ok { return; }
        LinkLayout(x, buffer, skips, isLazy);
        skips := skips + [0];
        turn := turn + 1;
      }
      ok := true;
    }

    /** Their ways out, once the end is known. */
    method CloseLinks(buffer: seq<byte>, splits: seq<nat>, isLazy: bool, ghost x: seq<byte>, ghost unknown: seq<int>)
      requires Valid() && |splits| == |unknown| && Written() == x + Links(buffer, unknown, isLazy)
      requires forall i :: 0 <= i < |splits| ==> splits[i] == |x| + i * (5 + |buffer|) + 1
      modifies out
      ensures Valid() && Written() == x + ChainCode(buffer, |splits|, isLazy)
    {
      hide Links, ChainCode, Patched, Written, Ending;
      ghost var skips := unknown;
      var after, index := length, 0;
      while index < |splits|
        invariant 0 <= index <= |splits| && Valid() && |skips| == |splits|
        invariant Written() == x + Links(buffer, skips, isLazy)
        invariant forall i :: 0 <= i < index ==> skips[i] == Ending(buffer, |splits|, i)
      {
        var splitAt: int := splits[index];
        LinksPatch(x, buffer, skips, isLazy, index, after - splitAt);
        Distance(buffer, |splits|, index);
        PatchI16(splitAt + if isLazy then 0 else 2, after - splitAt);
        skips := skips[index := after - splitAt];
        index := index + 1;
      }
      LinksChain(buffer, |splits|, isLazy, skips);
    }

    method EmitChain(buffer: seq<byte>, count: nat, isLazy: bool) returns (ok: bool)
      requires Valid()
      modifies this`length, out
      ensures Valid() && ok == (old(length) + |ChainCode(buffer, count, isLazy)| <= out.Length)
      ensures ok ==> Written() == old(Written()) + ChainCode(buffer, count, isLazy)
    {
      ghost var x := Written();
      ChainLength(buffer, count, isLazy);
      var splits;
      ghost var skips;
      ok, splits, skips := EmitLinks(buffer, count, isLazy);
      if !ok { return; }
      CloseLinks(buffer, splits, isLazy, x, skips);
    }

    /** Cut the program back to `start`, handing over what came after. */
    method Rewind(start: nat) returns (buffer: seq<byte>)
      requires Valid() && start <= length
      modifies this`length
      ensures Valid() && Written() == old(Written()[..start]) && buffer == old(Written()[start..])
    {
      buffer := out[start..length];
      length := start;
    }

    /** Replace what was generated from `start` on by its repetition. */
    method Quantify(start: nat, min: u32, max: u32, isLazy: bool) returns (error: Option<PatternError>)
      requires Valid() && start <= length && min <= max
      modifies this`length, out
      ensures Valid()
      ensures error == QuantifierVerdict(old(Written()[start..]), min, Bound(max), isLazy, start, out.Length)
      ensures error.None? ==> Written() == old(Written()[..start]) + RepeatCode(old(Written()[start..]), min, Bound(max), isLazy)
    {
      hide RepeatCode, StarCode, PlusCode, ChainCode, TailCode, Copies;
      if length == start { return Some(InvalidQuantifier); }
      if length - start > MAX_PROGRAM { return Some(TooLarge); }
      ghost var x := Written()[..start];
      var buffer := Rewind(start);
      var ok;
      if min == 0 && max == UNBOUNDED {
        ok := EmitStar(buffer, isLazy);
        Tails(buffer, min, max, isLazy);
        return if ok then None else Some(TooLarge);
      }
      if min == 1 && max == UNBOUNDED {
        ok := EmitPlus(buffer, isLazy);
        PlusIs(buffer, isLazy);
        return if ok then None else Some(TooLarge);
      }
      if min == 0 && max == 1 {
        ok := EmitOptional(buffer, isLazy);
        Tails(buffer, min, max, isLazy);
        return if ok then None else Some(TooLarge);
      }
      var optional := if max == UNBOUNDED then 0 else max - min;
      if min + optional > MAX_REPEAT_COPIES { return Some(TooLarge); }
      ok := EmitCounted(buffer, min, max, isLazy);
      return if ok then None else Some(TooLarge);
    }

    /** The body as often as it must match, and after that a star or the turns one may decline. */
    method EmitCounted(buffer: seq<byte>, min: u32, max: u32, isLazy: bool) returns (ok: bool)
      requires Valid() && min <= max && !(min == 1 && max == UNBOUNDED)
      modifies this`length, out
      ensures Valid() && ok == (old(length) + |RepeatCode(buffer, min, Bound(max), isLazy)| <= out.Length)
      ensures ok ==> Written() == old(Written()) + RepeatCode(buffer, min, Bound(max), isLazy)
    {
      hide RepeatCode, StarCode, ChainCode, TailCode, Copies, Written;
      ghost var x := Written();
      var turn := 0;
      NoCopies(x, buffer);
      CountedLayout(x, buffer, min, Bound(max), isLazy);
      TailIs(buffer, min, max, isLazy);
      while turn < min
        invariant 0 <= turn <= min && Valid() && Written() == x + Copies(buffer, turn)
      {
        FewerCopies(buffer, turn, min);
        ok := CopyRangeFrom(buffer);
        if !ok { return; }
        CopyLayout(x, buffer, turn);
        turn := turn + 1;
      }
      if max == UNBOUNDED {
        ok := EmitStar(buffer, isLazy);
      } else {
        ok := EmitChain(buffer, max - min, isLazy);
      }
    }

    /** Put the instructions from `start` behind a split and a jump, and open the second branch. */
    method OpenBranch(start: nat) returns (ok: bool, jumpAt: nat)
      requires Valid() && start <= length
      modifies this`length, out
      ensures Valid() && ok == (old(length) - start <= MAX_PROGRAM && old(length) + 8 <= out.Length)
      ensures ok ==> jumpAt == length - 2
      ensures ok ==> Written() == old(Written()[..start]) + SplitBytes(4, old(length) - start + 7) + old(Written()[start..]) + JumpBytes(0)
    {
      hide *;
      jumpAt := 0;
      if length - start > MAX_PROGRAM { return false, 0; }
      ghost var x := Written()[..start];
      var buffer := Rewind(start);
      BranchLayout(x, buffer);
      var splitAt;
      ok, splitAt := EmitSplit();
      if !ok { return; }
      var first := length;
      ok := CopyRangeFrom(buffer);
      if !ok { return; }
      ok, jumpAt := EmitJump();
      if !ok { return; }
      Direct(splitAt, first, length, false, x, buffer + JumpBytes(0));
    }

    /** Append the code of a tree. */
    method CompileTree(t: Regex) returns (error: Option<PatternError>)
      requires Valid() && Parsed(t, groups) && groups <= MAX_GROUPS
      modifies this, out
      ensures Valid()
      ensures error.None? <==> Compilable(t, old(groups), old(length), out.Length)
      ensures error == Some(InvalidQuantifier) ==> !Solid(t)
      ensures error.None? ==> Written() == old(Written()) + Code(t) && groups == old(groups) + Groups(t) <= MAX_GROUPS && Proper(t)
      decreases t, 1
    {
      hide Code, Parsed, Proper, Groups, Solid, Compilable, QuantifierVerdict, Encoded, EitherCode, RepeatCode, Written, Bound;
      CodeOf(t, groups);
      CompilableOf(t, groups, length, out.Length);
      SolidOf(t);
      ghost var x := Written();
      var start, ok := length, true;
      match t
      case Empty =>
        return None;
      case Atom(instr) =>
        ok := CopyRangeFrom(Encoded(instr));
        return if ok then None else Some(TooLarge);
      case Then(left, right) =>
        error := CompileTree(left);
        if error.Some? { return; }
        error := CompileTree(right);
        ThenLayout(x, Code(left), Code(right));
      case Either(_, _) =>
        error := CompileEither(t);
      case Repeat(body, min, max, isLazy) =>
        error := CompileTree(body);
        if error.Some? { return; }
        AppendSplits(x, Code(body));
        error := Quantify(start, min, if max.None? then UNBOUNDED else max.value, isLazy);
      case Group(_, _) =>
        error := CompileGroup(t);
    }

    /** An alternative: the first branch, moved behind a split, and then the second. */
    method CompileEither(t: Regex) returns (error: Option<PatternError>)
      requires t.Either? && Valid() && Parsed(t, groups) && groups <= MAX_GROUPS
      modifies this, out
      ensures Valid()
      ensures error.None? <==> Compilable(t, old(groups), old(length), out.Length)
      ensures error == Some(InvalidQuantifier) ==> !Solid(t)
      ensures error.None? ==> Written() == old(Written()) + Code(t) && groups == old(groups) + Groups(t) <= MAX_GROUPS && Proper(t)
      decreases t, 0
    {
      hide Code, Parsed, Proper, Groups, Solid, Compilable, EitherCode, SplitBytes, JumpBytes, Patched, Written;
      CodeOf(t, groups);
      CompilableOf(t, groups, length, out.Length);
      SolidOf(t);
      ghost var x := Written();
      var start := length;
      error := CompileTree(t.left);
      if error.Some? { return; }
      AppendSplits(x, Code(t.left));
      var ok, jumpAt := OpenBranch(start);
      if !ok { return Some(TooLarge); }
      error := CompileTree(t.right);
      if error.Some? { return; }
      BranchClosed(x, Code(t.left), Code(t.right));
      PatchI16(jumpAt, length - jumpAt);
    }

    /** A group: its body between the captures of its start and its end. */
    method CompileGroup(t: Regex) returns (error: Option<PatternError>)
      requires t.Group? && Valid() && Parsed(t, groups) && groups <= MAX_GROUPS
      modifies this, out
      ensures Valid()
      ensures error.None? <==> Compilable(t, old(groups), old(length), out.Length)
      ensures error == Some(InvalidQuantifier) ==> !Solid(t)
      ensures error.None? ==> Written() == old(Written()) + Code(t) && groups == old(groups) + Groups(t) <= MAX_GROUPS && Proper(t)
      decreases t, 0
    {
      hide Code, Parsed, Proper, Groups, Solid, Compilable, Written;
      GroupCode(t, groups);
      CompilableGroup(t, groups, length, out.Length);
      SolidOf(t);
      ghost var x := Written();
      if groups >= MAX_GROUPS { return Some(TooLarge); }
      groups := groups + 1;
      var slot := groups * 2;
      var ok := CopyRangeFrom([SAVE, slot]);
      if !ok { return Some(TooLarge); }
      error := CompileTree(t.body);
      if error.Some? { return; }
      ok := CopyRangeFrom([SAVE, slot + 1]);
      if !ok { return Some(TooLarge); }
      GroupLayout(x, slot, Code(t.body));
    }

    /** A whole program: the tree's code, a match, and the name table. */
    method Compile(t: Regex, names: seq<byte>, ghost flags: Flags) returns (error: Option<PatternError>)
      requires Valid() && Written() == [] && groups == 0 && Parsed(t, 0)
      modifies this, out
      ensures Valid()
      ensures error.None? <==> Compilable(t, 0, 0, out.Length) && |Code(t)| + 1 + |names| <= out.Length
      ensures error.None? ==> Proper(t) && |Code(t)| <= FAR && Written() == Compiled(t, flags, names).code
    {
      hide Code, Proper, Parsed, Compilable, Written;
      error := CompileTree(t);
      if error.Some? { return; }
      var ok := Emit(MATCH);
      if !ok { return Some(TooLarge); }
      ok := CopyRangeFrom(names);
      if !ok { return Some(TooLarge); }
    }
  }

  lemma AppendSplits(x: seq<byte>, a: seq<byte>)
    ensures (x + a)[..|x|] == x && (x + a)[|x|..] == a
  {}

  lemma ThenLayout(x: seq<byte>, a: seq<byte>, b: seq<byte>)
    ensures x + a + b == x + (a + b)
  {}

  lemma GroupLayout(x: seq<byte>, slot: byte, a: seq<byte>)
    requires slot + 1 < 256
    ensures x + [SAVE, slot] + a + [SAVE, slot + 1] == x + ([SAVE, slot] + a + [SAVE, slot + 1])
  {}

  /** One level of `Code`, `Parsed`, `Groups` and `Proper`. */
  lemma CodeOf(t: Regex, before: nat)
    requires Parsed(t, before)
    ensures t.Empty? ==> Code(t) == [] && Groups(t) == 0 && Proper(t)
    ensures t.Atom? ==> Code(t) == Encoded(t.instr) && Groups(t) == 0 && Proper(t)
    ensures t.Then? || t.Either? ==>
      && Code(t) == (if t.Then? then Code(t.left) + Code(t.right) else EitherCode(Code(t.left), Code(t.right)))
      && Groups(t) == Groups(t.left) + Groups(t.right)
      && Parsed(t.left, before) && Parsed(t.right, before + Groups(t.left))
      && (Proper(t) <==> Proper(t.left) && Proper(t.right))
    ensures t.Repeat? ==>
      && Code(t) == RepeatCode(Code(t.body), t.min, t.max, t.isLazy)
      && Groups(t) == Groups(t.body) && Parsed(t.body, before) && t.min <= U32_MAX
      && (t.max.Some? ==> t.min <= t.max.value < UNBOUNDED)
      && Bound(if t.max.None? then UNBOUNDED else t.max.value) == t.max
      && (Proper(t) <==> Proper(t.body))
  {
    hide Encoded, EitherCode, RepeatCode;
  }

  /** What fits is made of parts that fit where they are generated. */
  lemma {:induction false} CompilableOf(t: Regex, groups: nat, used: nat, capacity: nat)
    requires groups <= MAX_GROUPS && used <= capacity
    ensures t.Empty? ==> Compilable(t, groups, used, capacity)
    ensures t.Atom? ==> (Compilable(t, groups, used, capacity) <==> used + |Encoded(t.instr)| <= capacity)
    ensures t.Then? ==> (Compilable(t, groups, used, capacity) <==>
      && Compilable(t.left, groups, used, capacity)
      && Compilable(t.right, groups + Groups(t.left), used + |Code(t.left)|, capacity))
    ensures t.Either? ==> (Compilable(t, groups, used, capacity) <==>
      && Compilable(t.left, groups, used, capacity) && |Code(t.left)| <= MAX_PROGRAM && used + |Code(t.left)| + 8 <= capacity
      && Compilable(t.right, groups + Groups(t.left), used + 8 + |Code(t.left)|, capacity))
    ensures t.Repeat? ==> (Compilable(t, groups, used, capacity) <==>
      && Compilable(t.body, groups, used, capacity)
      && QuantifierVerdict(Code(t.body), t.min, t.max, t.isLazy, used, capacity).None?)
  {
    hide Encoded, RepeatCode, Code, FewCopies;
  }

  lemma {:induction false} CompilableGroup(t: Regex, groups: nat, used: nat, capacity: nat)
    requires t.Group?
    ensures Compilable(t, groups, used, capacity) <==>
      && groups < MAX_GROUPS && used + 2 <= capacity && Compilable(t.body, groups + 1, used + 2, capacity)
      && used + 4 + |Code(t.body)| <= capacity
  {
    hide Encoded, RepeatCode, Code, FewCopies;
  }

  /** Nothing is repeated exactly zero times. */
  predicate Repeated(t: Regex) {
    match t
    case Empty => true
    case Atom(_) => true
    case Then(left, right) => Repeated(left) && Repeated(right)
    case Either(left, right) => Repeated(left) && Repeated(right)
    case Repeat(body, min, max, _) => !(min == 0 && max == Some(0)) && Repeated(body)
    case Group(_, body) => Repeated(body)
  }

  /** Generating code takes exactly the room the code fills, but for bodies repeated zero times. */
  lemma {:induction false} PeakIsLength(t: Regex)
    ensures |Code(t)| <= Peak(t)
    ensures Repeated(t) ==> Peak(t) == |Code(t)|
  {
    hide Encoded, EitherCode, RepeatCode;
    match t
    case Empty =>
    case Atom(_) =>
    case Then(left, right) =>
      PeakIsLength(left);
      PeakIsLength(right);
    case Either(left, right) =>
      PeakIsLength(left);
      PeakIsLength(right);
    case Repeat(body, min, max, isLazy) =>
      PeakIsLength(body);
      if Repeated(t) { RepeatIsLonger(Code(body), min, max, isLazy); }
    case Group(_, body) =>
      PeakIsLength(body);
  }

  lemma RepeatIsLonger(a: seq<byte>, min: nat, max: Option<nat>, isLazy: bool)
    requires !(min == 0 && max == Some(0))
    ensures |RepeatCode(a, min, max, isLazy)| >= |a|
  {
    hide Copies, ChainCode, StarCode, PlusCode;
    if min > 0 {
      FewerCopies(a, 0, min);
    } else if max.Some? {
      ChainLength(a, max.value, isLazy);
      ProductSteps(0, max.value, 5 + |a|);
    }
  }

  /** One level of `Solid`. */
  lemma {:induction false} SolidOf(t: Regex)
    ensures t.Then? || t.Either? ==> (Solid(t) <==> Solid(t.left) && Solid(t.right))
    ensures t.Repeat? ==> (Solid(t) <==> Solid(t.body) && Code(t.body) != [])
    ensures t.Repeat? ==> forall used: nat, capacity: nat ::
      QuantifierVerdict(Code(t.body), t.min, t.max, t.isLazy, used, capacity) == Some(InvalidQuantifier) ==> !Solid(t)
    ensures t.Group? ==> (Solid(t) <==> Solid(t.body))
  {
    hide Code;
  }

  lemma GroupCode(t: Regex, before: nat)
    requires t.Group? && Parsed(t, before)
    ensures t.index == before + 1 && Groups(t) == 1 + Groups(t.body) && Parsed(t.body, before + 1)
    ensures before < MAX_GROUPS ==> Code(t) == [SAVE, 2 * t.index] + Code(t.body) + [SAVE, 2 * t.index + 1]
    ensures before < MAX_GROUPS ==> (Proper(t) <==> Proper(t.body))
  {
    hide Encoded, EitherCode, RepeatCode, Encodable, Slot;
    if before < MAX_GROUPS {
      SmallSlot(2 * t.index);
      SmallSlot(2 * t.index + 1);
    }
  }

  lemma SmallSlot(n: nat)
    requires n < 256
    ensures Slot(n) == n
  {}

  lemma WayIn(x: seq<byte>, isLazy: bool)
    ensures var s := x + SplitBytes(0, 0);
            Patched(s, |x| + 1 + (if isLazy then 2 else 0), 4) == x + EnterOrSkip(4, 0, isLazy)
  {
    hide U16, Patched;
    if isLazy {
      assert x + SplitBytes(0, 0) == (x + [SPLIT] + U16(0)) + U16(0) + [];
      PatchedInside(x + [SPLIT] + U16(0), 0, [], 4);
      assert (x + [SPLIT] + U16(0)) + U16(4) + [] == x + EnterOrSkip(4, 0, isLazy);
    } else {
      assert x + SplitBytes(0, 0) == (x + [SPLIT]) + U16(0) + U16(0);
      PatchedInside(x + [SPLIT], 0, U16(0), 4);
      assert (x + [SPLIT]) + U16(4) + U16(0) == x + EnterOrSkip(4, 0, isLazy);
    }
  }

  lemma Distance(a: seq<byte>, k: nat, i: nat)
    requires i < k
    ensures k * (5 + |a|) - (i * (5 + |a|) + 1) == Ending(a, k, i)
  {
    assert (k - i) * (5 + |a|) == k * (5 + |a|) - i * (5 + |a|);
  }

  /** How the pieces of a star come together. */
  lemma StarLayout(x: seq<byte>, a: seq<byte>, isLazy: bool)
    ensures x + SplitBytes(0, 0) + a + JumpBytes(0) == x + SplitBytes(0, 0) + (a + JumpBytes(0))
    ensures Patched(x + EnterOrSkip(4, |a| + 7, isLazy) + (a + JumpBytes(0)), |x| + |a| + 6, -(|a| + 6)) == x + StarCode(a, isLazy)
  {
    hide SplitBytes, JumpBytes, EnterOrSkip, Patched;
    var y := x + EnterOrSkip(4, |a| + 7, isLazy) + a;
    assert x + EnterOrSkip(4, |a| + 7, isLazy) + (a + JumpBytes(0)) == y + JumpBytes(0) + [];
    PatchedJump(y, 0, [], -(|a| + 6));
    assert y + JumpBytes(-(|a| + 6)) + [] == x + StarCode(a, isLazy);
  }

  lemma PlusLayout(x: seq<byte>, a: seq<byte>, isLazy: bool)
    ensures x + a + SplitBytes(0, 0) == (x + a) + SplitBytes(0, 0) + []
    ensures (x + a) + EnterOrSkip(-(|a| + 1), 4, isLazy) + [] == x + PlusCode(a, isLazy)
  {
    hide SplitBytes, EnterOrSkip;
  }

  lemma OptionalLayout(x: seq<byte>, a: seq<byte>, isLazy: bool)
    ensures x + EnterOrSkip(4, |a| + 4, isLazy) + a == x + ChainCode(a, 1, isLazy)
  {
    hide SplitBytes, EnterOrSkip;
    assert ChainCode(a, 1, isLazy) == EnterOrSkip(4, |a| + 4, isLazy) + a + [];
  }

  lemma BranchLayout(x: seq<byte>, a: seq<byte>)
    ensures x + SplitBytes(0, 0) + a + JumpBytes(0) == x + SplitBytes(0, 0) + (a + JumpBytes(0))
    ensures x + EnterOrSkip(4, |a| + 7, false) + (a + JumpBytes(0)) == x + SplitBytes(4, |a| + 7) + a + JumpBytes(0)
  {
    hide SplitBytes, JumpBytes;
  }

  lemma CopyLayout(x: seq<byte>, a: seq<byte>, turn: nat)
    ensures x + Copies(a, turn) + a == x + Copies(a, turn + 1)
  {
    CopiesAppend(a, turn);
    hide Copies;
    assert x + Copies(a, turn) + a == x + (Copies(a, turn) + a);
  }

  lemma CountedLayout(x: seq<byte>, a: seq<byte>, min: nat, max: Option<nat>, isLazy: bool)
    requires !(min == 1 && max.None?)
    ensures x + Copies(a, min) + TailCode(a, Remaining(min, max), isLazy) == x + RepeatCode(a, min, max, isLazy)
    ensures |RepeatCode(a, min, max, isLazy)| == |Copies(a, min)| + |TailCode(a, Remaining(min, max), isLazy)|
  {
    hide Copies, TailCode;
  }

  lemma NoCopies(x: seq<byte>, a: seq<byte>)
    ensures x == x + Copies(a, 0)
  {}

  lemma NoLinks(x: seq<byte>, a: seq<byte>, isLazy: bool)
    ensures x == x + Links(a, [], isLazy)
  {}

  lemma LinkLayout(x: seq<byte>, a: seq<byte>, skips: seq<int>, isLazy: bool)
    ensures x + Links(a, skips, isLazy) + EnterOrSkip(4, 0, isLazy) + a == x + Links(a, skips + [0], isLazy)
  {
    LinksAppend(a, skips, 0, isLazy);
    hide Links, EnterOrSkip;
    assert x + Links(a, skips, isLazy) + EnterOrSkip(4, 0, isLazy) + a
        == x + (Links(a, skips, isLazy) + EnterOrSkip(4, 0, isLazy) + a);
  }

  /** Directing the jump over the second branch completes an alternative. */
  lemma BranchClosed(x: seq<byte>, a: seq<byte>, b: seq<byte>)
    ensures var s := x + SplitBytes(4, |a| + 7) + a + JumpBytes(0) + b;
            Patched(s, |x| + |a| + 6, |b| + 2) == x + EitherCode(a, b)
  {
    hide SplitBytes, JumpBytes, Patched;
    var y := x + SplitBytes(4, |a| + 7) + a;
    PatchedJump(y, 0, b, |b| + 2);
    assert y + JumpBytes(|b| + 2) + b == x + EitherCode(a, b);
  }

  lemma TailIs(a: seq<byte>, min: nat, max: u32, isLazy: bool)
    requires min <= max
    ensures TailCode(a, Remaining(min, Bound(max)), isLazy)
         == if max == UNBOUNDED then StarCode(a, isLazy) else ChainCode(a, max - min, isLazy)
  {
    hide StarCode, ChainCode;
  }

  lemma PlusIs(a: seq<byte>, isLazy: bool)
    ensures RepeatCode(a, 1, Bound(UNBOUNDED), isLazy) == PlusCode(a, isLazy)
  {}

  lemma Tails(a: seq<byte>, min: nat, max: u32, isLazy: bool)
    requires min == 0
    ensures max == UNBOUNDED ==> RepeatCode(a, min, Bound(max), isLazy) == StarCode(a, isLazy)
    ensures max == 1 ==> RepeatCode(a, min, Bound(max), isLazy) == ChainCode(a, 1, isLazy)
  {
    hide StarCode, ChainCode;
  }
}
