/** Compiled code has the matches of the tree it was compiled from, in the same order. */
module PatternMeaning {
  import opened Words
  import opened PatternPrograms
  import opened PatternTrees

  // ----- code in place -----

  /** `part` lies at `base` of `code`. */
  ghost predicate Placed(code: seq<byte>, base: nat, part: seq<byte>) {
    base + |part| <= |code| && code[base..base + |part|] == part
  }

  lemma PlacedSplit(code: seq<byte>, base: nat, a: seq<byte>, b: seq<byte>)
    requires Placed(code, base, a + b)
    ensures Placed(code, base, a) && Placed(code, base + |a|, b)
  {
    SliceSplits(code, base, base + |a|, base + |a| + |b|, a, b);
  }

  lemma PlacedByte(code: seq<byte>, base: nat, part: seq<byte>, i: nat)
    requires Placed(code, base, part) && i < |part|
    ensures base + i < |code| && code[base + i] == part[i]
  {
    assert code[base..base + |part|][i] == code[base + i];
  }

  lemma ReadsU16(code: seq<byte>, at: nat, v: u16)
    requires Placed(code, at, U16(v))
    ensures ReadU16(code, at) == v
  {
    PlacedByte(code, at, U16(v), 0);
    PlacedByte(code, at, U16(v), 1);
  }

  lemma ReadsI16(code: seq<byte>, at: nat, v: int)
    requires Placed(code, at, U16(v)) && -0x8000 <= v < 0x8000
    ensures ReadI16(code, at) == v
  {
    PlacedByte(code, at, U16(v), 0);
    PlacedByte(code, at, U16(v), 1);
    var w := if v < 0 then v + 0x1_0000 else v;
    assert w % 256 == v % 256 && w / 256 % 256 == v / 256 % 256;
  }

  lemma ReadsU32(code: seq<byte>, at: nat, v: u32)
    requires Placed(code, at, U32(v))
    ensures ReadU32(code, at) == v
  {
    PlacedSplit(code, at, U16(v % 0x1_0000), U16(v / 0x1_0000));
    ReadsU16(code, at, v % 0x1_0000);
    ReadsU16(code, at + 2, v / 0x1_0000);
  }

  lemma {:induction false} ReadsRanges(code: seq<byte>, at: nat, ranges: seq<(u16, u16)>, i: nat)
    requires Placed(code, at, RangeBytes(ranges)) && i < |ranges|
    ensures (ReadU16(code, at + 4 * i), ReadU16(code, at + 4 * i + 2)) == ranges[i]
    decreases i
  {
    var (low, high) := ranges[0];
    assert RangeBytes(ranges) == U16(low) + U16(high) + RangeBytes(ranges[1..]);
    hide ReadU16, U16, RangeBytes, Placed;
    PlacedSplit(code, at, U16(low) + U16(high), RangeBytes(ranges[1..]));
    if i == 0 {
      PlacedSplit(code, at, U16(low), U16(high));
      ReadsU16(code, at, low);
      ReadsU16(code, at + 2, high);
    } else {
      ReadsRanges(code, at + 4, ranges[1..], i - 1);
    }
  }

  lemma {:induction false} ReadsWideRanges(code: seq<byte>, at: nat, ranges: seq<(u32, u32)>, i: nat)
    requires Placed(code, at, WideRangeBytes(ranges)) && i < |ranges|
    ensures (ReadU32(code, at + 8 * i), ReadU32(code, at + 8 * i + 4)) == ranges[i]
    decreases i
  {
    var (low, high) := ranges[0];
    assert WideRangeBytes(ranges) == U32(low) + U32(high) + WideRangeBytes(ranges[1..]);
    hide ReadU32, U32, WideRangeBytes, Placed;
    PlacedSplit(code, at, U32(low) + U32(high), WideRangeBytes(ranges[1..]));
    if i == 0 {
      PlacedSplit(code, at, U32(low), U32(high));
      ReadsU32(code, at, low);
      ReadsU32(code, at + 4, high);
    } else {
      ReadsWideRanges(code, at + 8, ranges[1..], i - 1);
    }
  }

  lemma ReadsAllRanges(code: seq<byte>, at: nat, ranges: seq<(u16, u16)>)
    requires Placed(code, at, RangeBytes(ranges))
    ensures Ranges(code, at, |ranges|) == ranges
  {
    hide ReadU16, RangeBytes, Placed;
    forall i | 0 <= i < |ranges| ensures Ranges(code, at, |ranges|)[i] == ranges[i] { ReadsRanges(code, at, ranges, i); }
  }

  lemma ReadsAllWideRanges(code: seq<byte>, at: nat, ranges: seq<(u32, u32)>)
    requires Placed(code, at, WideRangeBytes(ranges))
    ensures WideRanges(code, at, |ranges|) == ranges
  {
    hide ReadU32, WideRangeBytes, Placed;
    forall i | 0 <= i < |ranges| ensures WideRanges(code, at, |ranges|)[i] == ranges[i] { ReadsWideRanges(code, at, ranges, i); }
  }

  /** The head of a class: opcode, negation and count. */
  lemma ReadsHead(code: seq<byte>, pc: nat, opcode: byte, negated: bool, count: byte, rest: seq<byte>)
    requires Placed(code, pc, [opcode, Bit(negated), count] + rest)
    ensures pc < |code| && code[pc] == opcode && At(code, pc + 1) == Bit(negated) && At(code, pc + 2) == count
    ensures Placed(code, pc + 3, rest)
  {
    var head := [opcode, Bit(negated), count];
    PlacedSplit(code, pc, head, rest);
    PlacedByte(code, pc, head, 0);
    PlacedByte(code, pc, head, 1);
    PlacedByte(code, pc, head, 2);
  }

  lemma FetchesClass(code: seq<byte>, pc: nat, negated: bool, ranges: seq<(u16, u16)>)
    requires |ranges| < 256 && Placed(code, pc, Encoded(Class(negated, ranges)))
    ensures Fetch(code, pc) == Plain(Class(negated, ranges), |Encoded(Class(negated, ranges))|)
  {
    hide Placed, Ranges, RangeBytes, ReadU16, ReadI16, ReadU32;
    ReadsHead(code, pc, CLASS, negated, |ranges|, RangeBytes(ranges));
    ReadsAllRanges(code, pc + 3, ranges);
  }

  lemma FetchesWideClass(code: seq<byte>, pc: nat, negated: bool, ranges: seq<(u32, u32)>)
    requires |ranges| < 256 && Placed(code, pc, Encoded(Class32(negated, ranges)))
    ensures Fetch(code, pc) == Plain(Class32(negated, ranges), |Encoded(Class32(negated, ranges))|)
  {
    hide Placed, WideRanges, WideRangeBytes, ReadU16, ReadI16, ReadU32;
    ReadsHead(code, pc, CLASS32, negated, |ranges|, WideRangeBytes(ranges));
    ReadsAllWideRanges(code, pc + 3, ranges);
  }

  /** Instructions decode to what was encoded. */
  lemma Fetches(code: seq<byte>, pc: nat, instr: Instr)
    requires Encodable(instr) && Placed(code, pc, Encoded(instr))
    ensures Fetch(code, pc) == Plain(instr, |Encoded(instr)|)
  {
    var bytes := Encoded(instr);
    PlacedByte(code, pc, bytes, 0);
    match instr
    case Char(unit) =>
      PlacedSplit(code, pc, [CHAR], U16(unit));
      ReadsU16(code, pc + 1, unit);
    case CharFolded(unit) =>
      PlacedSplit(code, pc, [CHAR_FOLDED], U16(unit));
      ReadsU16(code, pc + 1, unit);
    case Class(negated, ranges) => FetchesClass(code, pc, negated, ranges);
    case Class32(negated, ranges) => FetchesWideClass(code, pc, negated, ranges);
    case Save(_) => PlacedByte(code, pc, bytes, 1);
    case WordBoundary(_) => PlacedByte(code, pc, bytes, 1);
    case Backreference(_) => PlacedByte(code, pc, bytes, 1);
    case Any =>
    case AssertStart =>
    case AssertEnd =>
  }

  lemma FetchesSplit(code: seq<byte>, pc: nat, first: int, second: int)
    requires Placed(code, pc, SplitBytes(first, second))
    requires -0x8000 <= first < 0x8000 && -0x8000 <= second < 0x8000 && pc + 1 + first >= 0 && pc + 1 + second >= 0
    ensures Fetch(code, pc) == Split(pc + 1 + first, pc + 1 + second)
  {
    PlacedSplit(code, pc, [SPLIT] + U16(first), U16(second));
    PlacedSplit(code, pc, [SPLIT], U16(first));
    PlacedByte(code, pc, [SPLIT], 0);
    hide ReadI16, U16;
    ReadsI16(code, pc + 1, first);
    ReadsI16(code, pc + 3, second);
  }

  lemma FetchesJump(code: seq<byte>, pc: nat, target: int)
    requires Placed(code, pc, JumpBytes(target)) && -0x8000 <= target < 0x8000 && pc + 1 + target >= 0
    ensures Fetch(code, pc) == Jump(pc + 1 + target)
  {
    PlacedSplit(code, pc, [JUMP], U16(target));
    PlacedByte(code, pc, [JUMP], 0);
    hide ReadI16, U16;
    ReadsI16(code, pc + 1, target);
  }

  /** Code cut short reads on as zeros, and a jump to before the code leads to its start. */
  lemma FetchesOutside(code: seq<byte>, pc: nat)
    requires pc < |code|
    ensures code[pc] == CHAR && pc + 1 == |code| ==> Fetch(code, pc) == Plain(Char(0), 3)
    ensures code[pc] == CHAR && pc + 2 == |code| ==> Fetch(code, pc) == Plain(Char(code[pc + 1]), 3)
    ensures code[pc] == SAVE && pc + 1 == |code| ==> Fetch(code, pc) == Plain(Save(0), 2)
    ensures code[pc] == JUMP && pc + 2 < |code| && pc < 255 && code[pc + 1] == 0 && code[pc + 2] == 0xFF ==>
              Fetch(code, pc) == Jump(0)
  {}

  // ----- following a tree -----

  function Standing(pc: nat, at: Place, d: seq<bool>): Config { Config(pc, at.position, at.slots, d) }

  /** The code from `pc` goes where `r` says, to `end`, or fails as `r` does. */
  ghost predicate Follows(p: Program, input: seq<u16>, pc: nat, end: nat, at: Place, d: seq<bool>, r: Steered)
    requires at.position <= |input|
  {
    exists n: nat :: Ends(After(p, input, Running(Standing(pc, at, d)), n), end, r)
  }

  ghost predicate Ends(o: Outcome, end: nat, r: Steered) {
    match r
    case Reached(v) => o == Running(Standing(end, v.0, v.1))
    case Fails => o.Failed?
    case Starves => o.Starved?
  }

  lemma FollowsNothing(p: Program, input: seq<u16>, pc: nat, at: Place, d: seq<bool>)
    requires at.position <= |input|
    ensures Follows(p, input, pc, pc, at, d, Reached((at, d)))
  {
    assert Ends(After(p, input, Running(Standing(pc, at, d)), 0), pc, Reached((at, d)));
  }

  /** One part after another. */
  lemma FollowsThen(p: Program, input: seq<u16>, pc: nat, mid: nat, end: nat, at: Place, d: seq<bool>, v: (Place, seq<bool>), r: Steered)
    requires at.position <= |input| && v.0.position <= |input|
    requires Follows(p, input, pc, mid, at, d, Reached(v)) && Follows(p, input, mid, end, v.0, v.1, r)
    ensures Follows(p, input, pc, end, at, d, r)
  {
    hide Next;
    var o := Running(Standing(pc, at, d));
    var m: nat :| Ends(After(p, input, o, m), mid, Reached(v));
    var n: nat :| Ends(After(p, input, Running(Standing(mid, v.0, v.1)), n), end, r);
    AfterSum(p, input, o, m, n);
    assert Ends(After(p, input, o, m + n), end, r);
  }

  lemma FollowsFailure(p: Program, input: seq<u16>, pc: nat, mid: nat, end: nat, at: Place, d: seq<bool>, r: Steered)
    requires at.position <= |input| && !r.Reached? && Follows(p, input, pc, mid, at, d, r)
    ensures Follows(p, input, pc, end, at, d, r)
  {
    hide After;
    var n: nat :| Ends(After(p, input, Running(Standing(pc, at, d)), n), mid, r);
    assert Ends(After(p, input, Running(Standing(pc, at, d)), n), end, r);
  }

  /** One instruction. */
  lemma FollowsOne(p: Program, input: seq<u16>, pc: nat, end: nat, at: Place, d: seq<bool>, r: Steered)
    requires at.position <= |input| && Ends(Next(p, input, Standing(pc, at, d)), end, r)
    ensures Follows(p, input, pc, end, at, d, r)
  {
    hide Next;
    var o := Running(Standing(pc, at, d));
    assert After(p, input, o, 1) == After(p, input, Next(p, input, o.config), 0);
    assert Ends(After(p, input, o, 1), end, r);
  }

  lemma FollowsInstr(p: Program, input: seq<u16>, pc: nat, instr: Instr, at: Place, d: seq<bool>)
    requires at.position <= |input| && Encodable(instr) && Placed(p.code, pc, Encoded(instr))
    ensures Follows(p, input, pc, pc + |Encoded(instr)|, at, d, Performs(p.flags, input, instr, at, d))
  {
    Fetches(p.code, pc, instr);
    NeverStops(p.flags, input, instr, at);
    hide Fetch, Encoded, Perform;
    FollowsOne(p, input, pc, pc + |Encoded(instr)|, at, d, Performs(p.flags, input, instr, at, d));
  }

  lemma NeverStops(flags: Flags, input: seq<u16>, instr: Instr, at: Place)
    requires at.position <= |input| && Encodable(instr)
    ensures !Perform(flags, input, instr, at.position, at.slots).Stop?
  {}

  lemma FollowsJump(p: Program, input: seq<u16>, pc: nat, target: int, at: Place, d: seq<bool>)
    requires at.position <= |input| && Placed(p.code, pc, JumpBytes(target))
    requires -0x8000 <= target < 0x8000 && pc + 1 + target >= 0
    ensures Follows(p, input, pc, pc + 1 + target, at, d, Reached((at, d)))
  {
    FetchesJump(p.code, pc, target);
    hide Fetch, JumpBytes;
    FollowsOne(p, input, pc, pc + 1 + target, at, d, Reached((at, d)));
  }

  lemma FollowsSplit(p: Program, input: seq<u16>, pc: nat, first: int, second: int, at: Place, d: seq<bool>)
    requires at.position <= |input| && Placed(p.code, pc, SplitBytes(first, second))
    requires -0x8000 <= first < 0x8000 && -0x8000 <= second < 0x8000 && pc + 1 + first >= 0 && pc + 1 + second >= 0
    ensures d == [] ==> forall end: nat :: Follows(p, input, pc, end, at, d, Starves)
    ensures d != [] ==> Follows(p, input, pc, pc + 1 + (if d[0] then second else first), at, d, Reached((at, d[1..])))
  {
    FetchesSplit(p.code, pc, first, second);
    hide Fetch, SplitBytes;
    if d == [] {
      forall end: nat ensures Follows(p, input, pc, end, at, d, Starves) { FollowsOne(p, input, pc, end, at, d, Starves); }
    } else {
      FollowsOne(p, input, pc, pc + 1 + (if d[0] then second else first), at, d, Reached((at, d[1..])));
    }
  }

  lemma FollowsEnterOrSkip(p: Program, input: seq<u16>, pc: nat, enter: int, skip: int, isLazy: bool, at: Place, d: seq<bool>)
    requires at.position <= |input| && Placed(p.code, pc, EnterOrSkip(enter, skip, isLazy))
    requires -0x8000 <= enter < 0x8000 && -0x8000 <= skip < 0x8000 && pc + 1 + enter >= 0 && pc + 1 + skip >= 0
    ensures d == [] ==> forall end: nat :: Follows(p, input, pc, end, at, d, Starves)
    ensures d != [] ==> Follows(p, input, pc, pc + 1 + (if d[0] == isLazy then enter else skip), at, d, Reached((at, d[1..])))
  {
    hide Follows, Placed, SplitBytes;
    if isLazy {
      FollowsSplit(p, input, pc, skip, enter, at, d);
    } else {
      FollowsSplit(p, input, pc, enter, skip, at, d);
    }
  }

  // ----- repetitions -----

  /** The code at `base` follows the tree `t` from every place, under every decision. */
  ghost predicate Implements(p: Program, input: seq<u16>, base: nat, size: nat, t: Regex) {
    forall at: Place, d: seq<bool> :: at.position <= |input| ==>
      Follows(p, input, base, base + size, at, d, Runs(p.flags, input, t, at, d))
  }

  /** A body, and then whatever `rest` says of where it leads. */
  lemma BodyThen(p: Program, input: seq<u16>, base: nat, size: nat, t: Regex, end: nat, at: Place, d: seq<bool>, rest: Steered)
    requires at.position <= |input| && Implements(p, input, base, size, t)
    requires var r := Runs(p.flags, input, t, at, d);
             if r.Reached? then Follows(p, input, base + size, end, r.value.0, r.value.1, rest) else rest == r
    ensures Follows(p, input, base, end, at, d, rest)
  {
    hide Runs, Follows;
    var r := Runs(p.flags, input, t, at, d);
    if r.Reached? {
      FollowsThen(p, input, base, base + size, end, at, d, r.value, rest);
    } else {
      FollowsFailure(p, input, base, base + size, end, at, d, r);
    }
  }

  /** The next turn of a repetition whose required turns are done. */
  lemma TurnsOptional(flags: Flags, input: seq<u16>, body: Regex, max: Option<nat>, isLazy: bool, at: Place, d: seq<bool>)
    requires at.position <= |input|
    ensures var r := Turns(flags, input, body, 0, max, isLazy, at, d);
            && (max == Some(0) ==> r == Reached((at, d)))
            && (max != Some(0) && d == [] ==> r == Starves)
            && (max != Some(0) && d != [] && d[0] != isLazy ==> r == Reached((at, d[1..])))
            && (max != Some(0) && d != [] && d[0] == isLazy ==>
                  var v := Runs(flags, input, body, at, d[1..]);
                  r == if v.Reached? then Turns(flags, input, body, 0, OneLess(max), isLazy, v.value.0, v.value.1) else v)
  {}

  lemma TurnsRequired(flags: Flags, input: seq<u16>, body: Regex, min: nat, max: Option<nat>, isLazy: bool, at: Place, d: seq<bool>)
    requires at.position <= |input| && min > 0
    ensures var v := Runs(flags, input, body, at, d);
            Turns(flags, input, body, min, max, isLazy, at, d) ==
              if v.Reached? then Turns(flags, input, body, min - 1, OneLess(max), isLazy, v.value.0, v.value.1) else v
  {}

  lemma StarPlaced(code: seq<byte>, base: nat, a: seq<byte>, isLazy: bool)
    requires Placed(code, base, StarCode(a, isLazy))
    ensures Placed(code, base, EnterOrSkip(4, |a| + 7, isLazy)) && Placed(code, base + 5, a)
    ensures Placed(code, base + 5 + |a|, JumpBytes(-(|a| + 6)))
  {
    hide Placed, EnterOrSkip, JumpBytes;
    var split, jump := EnterOrSkip(4, |a| + 7, isLazy), JumpBytes(-(|a| + 6));
    PlacedSplit(code, base, split + a, jump);
    PlacedSplit(code, base, split, a);
  }

  /** A star: the split, the body, and the jump back to the split. */
  lemma {:induction false} StarFollows(p: Program, input: seq<u16>, base: nat, body: Regex, a: seq<byte>, isLazy: bool, at: Place, d: seq<bool>)
    requires at.position <= |input| && |a| <= FAR - 8 && Placed(p.code, base, StarCode(a, isLazy))
    requires Implements(p, input, base + 5, |a|, body)
    ensures Follows(p, input, base, base + |a| + 8, at, d, Turns(p.flags, input, body, 0, None, isLazy, at, d))
    decreases |d|
  {
    hide Follows, Implements, Runs, Turns, Placed, EnterOrSkip, JumpBytes, StarCode;
    TurnsOptional(p.flags, input, body, None, isLazy, at, d);
    StarPlaced(p.code, base, a, isLazy);
    var r := Turns(p.flags, input, body, 0, None, isLazy, at, d);
    var end := base + |a| + 8;
    FollowsEnterOrSkip(p, input, base, 4, |a| + 7, isLazy, at, d);
    if d != [] && d[0] == isLazy {
      var v := Runs(p.flags, input, body, at, d[1..]);
      if v.Reached? {
        var (at', d') := v.value;
        FollowsJump(p, input, base + 5 + |a|, -(|a| + 6), at', d');
        StarFollows(p, input, base, body, a, isLazy, at', d');
        FollowsThen(p, input, base + 5 + |a|, base, end, at', d', v.value, r);
      }
      BodyThen(p, input, base + 5, |a|, body, end, at, d[1..], r);
      FollowsThen(p, input, base, base + 5, end, at, d, (at, d[1..]), r);
    }
  }

  /** The choice behind the body of `x+`: another turn, or on. */
  lemma {:induction false} LoopFollows(p: Program, input: seq<u16>, base: nat, body: Regex, a: seq<byte>, isLazy: bool, at: Place, d: seq<bool>)
    requires at.position <= |input| && |a| < FAR
    requires Placed(p.code, base + |a|, EnterOrSkip(-(|a| + 1), 4, isLazy))
    requires Implements(p, input, base, |a|, body)
    ensures Follows(p, input, base + |a|, base + |a| + 5, at, d, Turns(p.flags, input, body, 0, None, isLazy, at, d))
    decreases |d|
  {
    hide Follows, Implements, Runs, Turns, Placed, EnterOrSkip;
    TurnsOptional(p.flags, input, body, None, isLazy, at, d);
    var r := Turns(p.flags, input, body, 0, None, isLazy, at, d);
    var end := base + |a| + 5;
    FollowsEnterOrSkip(p, input, base + |a|, -(|a| + 1), 4, isLazy, at, d);
    if d != [] && d[0] == isLazy {
      var v := Runs(p.flags, input, body, at, d[1..]);
      if v.Reached? { LoopFollows(p, input, base, body, a, isLazy, v.value.0, v.value.1); }
      BodyThen(p, input, base, |a|, body, end, at, d[1..], r);
      FollowsThen(p, input, base + |a|, base, end, at, d, (at, d[1..]), r);
    }
  }

  lemma ChainPlaced(code: seq<byte>, base: nat, a: seq<byte>, k: nat, isLazy: bool)
    requires k > 0 && Placed(code, base, ChainCode(a, k, isLazy))
    ensures var rest := ChainCode(a, k - 1, isLazy);
            && |ChainCode(a, k, isLazy)| == 5 + |a| + |rest|
            && Placed(code, base, EnterOrSkip(4, |a| + |rest| + 4, isLazy))
            && Placed(code, base + 5, a) && Placed(code, base + 5 + |a|, rest)
  {
    var rest := ChainCode(a, k - 1, isLazy);
    var split := EnterOrSkip(4, |a| + |rest| + 4, isLazy);
    assert ChainCode(a, k, isLazy) == split + a + rest;
    hide Placed, EnterOrSkip, ChainCode;
    PlacedSplit(code, base, split + a, rest);
    PlacedSplit(code, base, split, a);
  }

  /** Copied bodies are position-independent. */
  ghost predicate Movable(p: Program, input: seq<u16>, a: seq<byte>, t: Regex) {
    forall base: nat :: Placed(p.code, base, a) ==> Implements(p, input, base, |a|, t)
  }

  lemma MovedTo(p: Program, input: seq<u16>, a: seq<byte>, t: Regex, base: nat)
    requires Movable(p, input, a, t) && Placed(p.code, base, a)
    ensures Implements(p, input, base, |a|, t)
  {}

  /** Optional turns; declining any of them leaves the chain. */
  lemma {:induction false} ChainFollows(p: Program, input: seq<u16>, base: nat, body: Regex, a: seq<byte>, k: nat, isLazy: bool,
                                        at: Place, d: seq<bool>)
    requires at.position <= |input| && |ChainCode(a, k, isLazy)| <= FAR && Placed(p.code, base, ChainCode(a, k, isLazy))
    requires Movable(p, input, a, body)
    ensures Follows(p, input, base, base + |ChainCode(a, k, isLazy)|, at, d, Turns(p.flags, input, body, 0, Some(k), isLazy, at, d))
    decreases k
  {
    hide Runs, Turns, Follows, Implements, Placed, EnterOrSkip, Movable, ChainCode;
    TurnsOptional(p.flags, input, body, Some(k), isLazy, at, d);
    if k == 0 {
      NoChain(a, isLazy);
      FollowsNothing(p, input, base, at, d);
    } else {
      ChainPlaced(p.code, base, a, k, isLazy);
      MovedTo(p, input, a, body, base + 5);
      var r := Turns(p.flags, input, body, 0, Some(k), isLazy, at, d);
      var rest := ChainCode(a, k - 1, isLazy);
      var end, skip := base + 5 + |a| + |rest|, |a| + |rest| + 4;
      FollowsEnterOrSkip(p, input, base, 4, skip, isLazy, at, d);
      if d != [] && d[0] == isLazy {
        var v := Runs(p.flags, input, body, at, d[1..]);
        if v.Reached? { ChainFollows(p, input, base + 5 + |a|, body, a, k - 1, isLazy, v.value.0, v.value.1); }
        BodyThen(p, input, base + 5, |a|, body, end, at, d[1..], r);
        FollowsThen(p, input, base, base + 5, end, at, d, (at, d[1..]), r);
      }
    }
  }

  lemma NoChain(a: seq<byte>, isLazy: bool)
    ensures ChainCode(a, 0, isLazy) == []
  {}

  function CountedCode(a: seq<byte>, min: nat, max: Option<nat>, isLazy: bool): seq<byte> {
    Copies(a, min) + TailCode(a, Remaining(min, max), isLazy)
  }

  lemma CountedNext(a: seq<byte>, min: nat, max: Option<nat>, isLazy: bool)
    requires max.Some? ==> min <= max.value
    ensures min == 0 && max.None? ==> CountedCode(a, min, max, isLazy) == StarCode(a, isLazy)
    ensures min == 0 && max.Some? ==> CountedCode(a, min, max, isLazy) == ChainCode(a, max.value, isLazy)
    ensures min > 0 ==> CountedCode(a, min, max, isLazy) == a + CountedCode(a, min - 1, OneLess(max), isLazy)
  {
    hide StarCode, ChainCode;
    if min > 0 {
      assert Remaining(min - 1, OneLess(max)) == Remaining(min, max);
      var tail := TailCode(a, Remaining(min, max), isLazy);
      assert (a + Copies(a, min - 1)) + tail == a + (Copies(a, min - 1) + tail);
    }
  }

  /** The required turns, written out. */
  lemma {:induction false} CopiesFollow(p: Program, input: seq<u16>, base: nat, body: Regex, a: seq<byte>, min: nat,
                                        max: Option<nat>, isLazy: bool, at: Place, d: seq<bool>)
    requires at.position <= |input| && (max.Some? ==> min <= max.value) && Movable(p, input, a, body)
    requires |CountedCode(a, min, max, isLazy)| <= FAR && Placed(p.code, base, CountedCode(a, min, max, isLazy))
    ensures Follows(p, input, base, base + |CountedCode(a, min, max, isLazy)|, at, d,
                    Turns(p.flags, input, body, min, max, isLazy, at, d))
    decreases min
  {
    hide Runs, Turns, CountedCode, Follows, Implements, Movable, Placed, StarCode, ChainCode;
    CountedNext(a, min, max, isLazy);
    if min == 0 && max.None? {
      StarPlaced(p.code, base, a, isLazy);
      MovedTo(p, input, a, body, base + 5);
      StarFollows(p, input, base, body, a, isLazy, at, d);
    } else if min == 0 {
      ChainFollows(p, input, base, body, a, max.value, isLazy, at, d);
    } else {
      var r := Turns(p.flags, input, body, min, max, isLazy, at, d);
      var rest := CountedCode(a, min - 1, OneLess(max), isLazy);
      PlacedSplit(p.code, base, a, rest);
      MovedTo(p, input, a, body, base);
      TurnsRequired(p.flags, input, body, min, max, isLazy, at, d);
      var v := Runs(p.flags, input, body, at, d);
      if v.Reached? { CopiesFollow(p, input, base + |a|, body, a, min - 1, OneLess(max), isLazy, v.value.0, v.value.1); }
      BodyThen(p, input, base, |a|, body, base + |a| + |rest|, at, d, r);
    }
  }

  lemma RepeatFollows(p: Program, input: seq<u16>, base: nat, t: Regex, a: seq<byte>, at: Place, d: seq<bool>)
    requires t.Repeat? && (t.max.Some? ==> t.min <= t.max.value) && at.position <= |input|
    requires var code := RepeatCode(a, t.min, t.max, t.isLazy); |code| <= FAR && Placed(p.code, base, code)
    requires Movable(p, input, a, t.body)
    ensures Follows(p, input, base, base + |RepeatCode(a, t.min, t.max, t.isLazy)|, at, d,
                    Turns(p.flags, input, t.body, t.min, t.max, t.isLazy, at, d))
  {
    hide Runs, Turns, Follows, Implements, Movable, Placed, EnterOrSkip;
    if t.min == 1 && t.max.None? {
      var r := Turns(p.flags, input, t.body, t.min, t.max, t.isLazy, at, d);
      TurnsRequired(p.flags, input, t.body, t.min, t.max, t.isLazy, at, d);
      PlacedSplit(p.code, base, a, EnterOrSkip(-(|a| + 1), 4, t.isLazy));
      MovedTo(p, input, a, t.body, base);
      var v := Runs(p.flags, input, t.body, at, d);
      if v.Reached? { LoopFollows(p, input, base, t.body, a, t.isLazy, v.value.0, v.value.1); }
      BodyThen(p, input, base, |a|, t.body, base + |a| + 5, at, d, r);
    } else {
      CopiesFollow(p, input, base, t.body, a, t.min, t.max, t.isLazy, at, d);
    }
  }

  // ----- trees -----

  lemma GroupFollows(p: Program, input: seq<u16>, base: nat, t: Regex, at: Place, d: seq<bool>)
    requires t.Group? && Proper(t) && at.position <= |input| && Placed(p.code, base, Code(t))
    requires Movable(p, input, Code(t.body), t.body)
    ensures Follows(p, input, base, base + |Code(t)|, at, d, Runs(p.flags, input, t, at, d))
  {
    hide Follows, Implements, Movable, Placed, Performs, Runs, Code, Encoded;
    var open, close := Save(Slot(2 * t.index)), Save(Slot(2 * t.index + 1));
    var a, r := Code(t.body), Runs(p.flags, input, t, at, d);
    GroupPlaced(p.code, base, t);
    MovedTo(p, input, a, t.body, base + 2);
    FollowsInstr(p, input, base, open, at, d);
    GroupRuns(p.flags, input, t, at, d);
    var o := Performs(p.flags, input, open, at, d);
    var v := Runs(p.flags, input, t.body, o.value.0, o.value.1);
    var end := base + 4 + |a|;
    if v.Reached? { FollowsInstr(p, input, base + 2 + |a|, close, v.value.0, v.value.1); }
    BodyThen(p, input, base + 2, |a|, t.body, end, o.value.0, o.value.1, r);
    FollowsThen(p, input, base, base + 2, end, at, d, o.value, r);
  }

  lemma GroupPlaced(code: seq<byte>, base: nat, t: Regex)
    requires t.Group? && Placed(code, base, Code(t))
    ensures var open, close, a := Encoded(Save(Slot(2 * t.index))), Encoded(Save(Slot(2 * t.index + 1))), Code(t.body);
            && |open| == 2 && |close| == 2 && |Code(t)| == 4 + |a|
            && Placed(code, base, open) && Placed(code, base + 2, a) && Placed(code, base + 2 + |a|, close)
  {
    var open, close, a := Encoded(Save(Slot(2 * t.index))), Encoded(Save(Slot(2 * t.index + 1))), Code(t.body);
    assert Code(t) == open + a + close;
    hide Placed, Code, Encoded;
    PlacedSplit(code, base, open + a, close);
    PlacedSplit(code, base, open, a);
  }

  /** Recording a capture always succeeds, so a group fails only with its body. */
  lemma GroupRuns(flags: Flags, input: seq<u16>, t: Regex, at: Place, d: seq<bool>)
    requires t.Group? && Proper(t) && at.position <= |input|
    ensures var o := Performs(flags, input, Save(Slot(2 * t.index)), at, d);
            && o.Reached?
            && var v := Runs(flags, input, t.body, o.value.0, o.value.1);
               Runs(flags, input, t, at, d)
                 == if v.Reached? then Performs(flags, input, Save(Slot(2 * t.index + 1)), v.value.0, v.value.1) else v
  {
    hide Perform, Slot;
    SaveReaches(flags, input, 2 * t.index, at, d);
  }

  lemma SaveReaches(flags: Flags, input: seq<u16>, n: nat, at: Place, d: seq<bool>)
    requires at.position <= |input| && n < MAX_SLOTS
    ensures Performs(flags, input, Save(Slot(n)), at, d).Reached?
  {}

  lemma EitherPlaced(code: seq<byte>, base: nat, a: seq<byte>, b: seq<byte>)
    requires Placed(code, base, EitherCode(a, b))
    ensures Placed(code, base, SplitBytes(4, |a| + 7)) && Placed(code, base + 5, a)
    ensures Placed(code, base + 5 + |a|, JumpBytes(|b| + 2)) && Placed(code, base + 8 + |a|, b)
  {
    hide Placed, SplitBytes, JumpBytes;
    var split, jump := SplitBytes(4, |a| + 7), JumpBytes(|b| + 2);
    PlacedSplit(code, base, split + a + jump, b);
    PlacedSplit(code, base, split + a, jump);
    PlacedSplit(code, base, split, a);
  }

  lemma EitherFollows(p: Program, input: seq<u16>, base: nat, t: Regex, at: Place, d: seq<bool>)
    requires t.Either? && at.position <= |input| && |Code(t)| <= FAR && Placed(p.code, base, Code(t))
    requires Movable(p, input, Code(t.left), t.left) && Movable(p, input, Code(t.right), t.right)
    ensures Follows(p, input, base, base + |Code(t)|, at, d, Runs(p.flags, input, t, at, d))
  {
    hide Follows, Implements, Movable, Placed, Runs, SplitBytes, JumpBytes, EitherCode;
    var a, b, r := Code(t.left), Code(t.right), Runs(p.flags, input, t, at, d);
    var end := base + 8 + |a| + |b|;
    EitherPlaced(p.code, base, a, b);
    MovedTo(p, input, a, t.left, base + 5);
    MovedTo(p, input, b, t.right, base + 8 + |a|);
    EitherRuns(p.flags, input, t, at, d);
    FollowsSplit(p, input, base, 4, |a| + 7, at, d);
    if d != [] {
      if d[0] {
        FollowsResult(p, input, end, r);
        BodyThen(p, input, base + 8 + |a|, |b|, t.right, end, at, d[1..], r);
        FollowsThen(p, input, base, base + 8 + |a|, end, at, d, (at, d[1..]), r);
      } else {
        var v := Runs(p.flags, input, t.left, at, d[1..]);
        if v.Reached? { FollowsJump(p, input, base + 5 + |a|, |b| + 2, v.value.0, v.value.1); }
        assert r == v;
        BodyThen(p, input, base + 5, |a|, t.left, end, at, d[1..], r);
        FollowsThen(p, input, base, base + 5, end, at, d, (at, d[1..]), r);
      }
    }
  }

  lemma EitherRuns(flags: Flags, input: seq<u16>, t: Regex, at: Place, d: seq<bool>)
    requires t.Either? && at.position <= |input|
    ensures Runs(flags, input, t, at, d) == if d == [] then Starves else Runs(flags, input, if d[0] then t.right else t.left, at, d[1..])
  {}

  lemma FollowsResult(p: Program, input: seq<u16>, end: nat, r: Steered)
    requires r.Reached? ==> r.value.0.position <= |input|
    ensures r.Reached? ==> Follows(p, input, end, end, r.value.0, r.value.1, r)
  {
    if r.Reached? { FollowsNothing(p, input, end, r.value.0, r.value.1); }
  }

  lemma ThenFollows(p: Program, input: seq<u16>, base: nat, t: Regex, at: Place, d: seq<bool>)
    requires t.Then? && at.position <= |input| && Placed(p.code, base, Code(t))
    requires Movable(p, input, Code(t.left), t.left) && Movable(p, input, Code(t.right), t.right)
    ensures Follows(p, input, base, base + |Code(t)|, at, d, Runs(p.flags, input, t, at, d))
  {
    hide Follows, Movable, Placed, Runs;
    PartsFollow(p, input, base, t, Code(t.left), Code(t.right), at, d);
  }

  lemma PartsFollow(p: Program, input: seq<u16>, base: nat, t: Regex, a: seq<byte>, b: seq<byte>, at: Place, d: seq<bool>)
    requires t.Then? && at.position <= |input| && Placed(p.code, base, a + b)
    requires Movable(p, input, a, t.left) && Movable(p, input, b, t.right)
    ensures Follows(p, input, base, base + |a + b|, at, d, Runs(p.flags, input, t, at, d))
  {
    hide Follows, Movable, Placed, Runs, Implements;
    PlacedSplit(p.code, base, a, b);
    MovedTo(p, input, a, t.left, base);
    MovedTo(p, input, b, t.right, base + |a|);
    ThenRuns(p.flags, input, t, at, d);
    var v, r := Runs(p.flags, input, t.left, at, d), Runs(p.flags, input, t, at, d);
    if v.Reached? { Implemented(p, input, base + |a|, |b|, t.right, v.value.0, v.value.1); }
    BodyThen(p, input, base, |a|, t.left, base + |a| + |b|, at, d, r);
  }

  lemma ThenRuns(flags: Flags, input: seq<u16>, t: Regex, at: Place, d: seq<bool>)
    requires t.Then? && at.position <= |input|
    ensures var v := Runs(flags, input, t.left, at, d);
            Runs(flags, input, t, at, d) == if v.Reached? then Runs(flags, input, t.right, v.value.0, v.value.1) else v
  {}

  lemma Implemented(p: Program, input: seq<u16>, base: nat, size: nat, t: Regex, at: Place, d: seq<bool>)
    requires Implements(p, input, base, size, t) && at.position <= |input|
    ensures Follows(p, input, base, base + size, at, d, Runs(p.flags, input, t, at, d))
  {}

  /** A repetition holds its body's code, unless no turn is admitted. */
  lemma RepeatSize(a: seq<byte>, min: nat, max: Option<nat>, isLazy: bool)
    requires max.Some? ==> min <= max.value
    ensures max != Some(0) ==> |a| <= |RepeatCode(a, min, max, isLazy)|
    ensures max == Some(0) ==> RepeatCode(a, min, max, isLazy) == []
  {
    if max.Some? && min < max.value { assert |ChainCode(a, max.value - min, isLazy)| >= |a|; }
    if min > 0 { assert |Copies(a, min)| >= |a|; }
  }

  ghost predicate FollowsFrom(p: Program, input: seq<u16>, base: nat, t: Regex, at: Place, d: seq<bool>)
    requires at.position <= |input|
  {
    Follows(p, input, base, base + |Code(t)|, at, d, Runs(p.flags, input, t, at, d))
  }

  /** Wherever it is placed, the code of a tree follows the tree. */
  lemma {:induction false} CodeFollows(p: Program, input: seq<u16>, t: Regex)
    requires Proper(t) && |Code(t)| <= FAR
    ensures Movable(p, input, Code(t), t)
  {
    hide Runs, Turns, Follows, Movable, RepeatCode, EitherCode;
    match t {
      case Then(left, right) =>
        CodeFollows(p, input, left);
        CodeFollows(p, input, right);
      case Either(left, right) =>
        CodeFollows(p, input, left);
        CodeFollows(p, input, right);
      case Repeat(body, min, max, isLazy) =>
        RepeatSize(Code(body), min, max, isLazy);
        if max != Some(0) { CodeFollows(p, input, body); }
      case Group(index, body) =>
        CodeFollows(p, input, body);
      case _ =>
    }
    forall base: nat, at: Place, d: seq<bool> | at.position <= |input| && Placed(p.code, base, Code(t))
      ensures FollowsFrom(p, input, base, t, at, d)
    {
      TreeFollows(p, input, base, t, at, d);
    }
    EverywhereMovable(p, input, t);
  }

  lemma EverywhereMovable(p: Program, input: seq<u16>, t: Regex)
    requires forall base: nat, at: Place, d: seq<bool> :: at.position <= |input| && Placed(p.code, base, Code(t)) ==>
               FollowsFrom(p, input, base, t, at, d)
    ensures Movable(p, input, Code(t), t)
  {
    hide Runs, Code, Follows, Placed;
    forall base: nat | Placed(p.code, base, Code(t)) ensures Implements(p, input, base, |Code(t)|, t) {
      forall at: Place, d: seq<bool> | at.position <= |input|
        ensures Follows(p, input, base, base + |Code(t)|, at, d, Runs(p.flags, input, t, at, d))
      {
        assert FollowsFrom(p, input, base, t, at, d);
      }
    }
  }

  /** One level of a tree, its parts movable. */
  lemma TreeFollows(p: Program, input: seq<u16>, base: nat, t: Regex, at: Place, d: seq<bool>)
    requires Proper(t) && |Code(t)| <= FAR && at.position <= |input| && Placed(p.code, base, Code(t))
    requires t.Then? || t.Either? ==> Movable(p, input, Code(t.left), t.left) && Movable(p, input, Code(t.right), t.right)
    requires t.Group? || (t.Repeat? && t.max != Some(0)) ==> Movable(p, input, Code(t.body), t.body)
    ensures FollowsFrom(p, input, base, t, at, d)
  {
    hide Runs, Turns, Follows, Movable, RepeatCode, EitherCode, Placed, Encoded;
    match t
    case Empty =>
      EmptyRuns(p.flags, input, at, d);
      FollowsNothing(p, input, base, at, d);
    case Atom(instr) =>
      AtomRuns(p.flags, input, instr, at, d);
      FollowsInstr(p, input, base, instr, at, d);
    case Then(left, right) => ThenFollows(p, input, base, t, at, d);
    case Either(left, right) => EitherFollows(p, input, base, t, at, d);
    case Repeat(body, min, max, isLazy) =>
      RepeatRuns(p.flags, input, t, at, d);
      if max == Some(0) {
        RepeatSize(Code(body), min, max, isLazy);
        TurnsOptional(p.flags, input, body, max, isLazy, at, d);
        FollowsNothing(p, input, base, at, d);
      } else {
        RepeatFollows(p, input, base, t, Code(body), at, d);
      }
    case Group(index, body) => GroupFollows(p, input, base, t, at, d);
  }

  lemma RepeatRuns(flags: Flags, input: seq<u16>, t: Regex, at: Place, d: seq<bool>)
    requires t.Repeat? && at.position <= |input|
    ensures Runs(flags, input, t, at, d) == Turns(flags, input, t.body, t.min, t.max, t.isLazy, at, d)
  {}

  lemma EmptyRuns(flags: Flags, input: seq<u16>, at: Place, d: seq<bool>)
    requires at.position <= |input|
    ensures Runs(flags, input, Empty, at, d) == Reached((at, d))
  {}

  lemma AtomRuns(flags: Flags, input: seq<u16>, instr: Instr, at: Place, d: seq<bool>)
    requires at.position <= |input|
    ensures Runs(flags, input, Atom(instr), at, d) == Performs(flags, input, instr, at, d)
  {}
}
