/** Regular expressions as trees: their matches in priority order, and the code each
    tree stands for. */
module PatternTrees {
  import opened Words
  import opened PatternPrograms

  datatype Regex =
    | Empty
    | Atom(instr: Instr)
    | Then(left: Regex, right: Regex)
    | Either(left: Regex, right: Regex)
    | Repeat(body: Regex, min: nat, max: Option<nat>, isLazy: bool)
    | Group(index: nat, body: Regex)

  // ----- meaning -----

  datatype Place = Place(position: nat, slots: Slots)

  /** Where decisions lead: to a place with some left over, to a failure, or to a choice
      that none is left for. */
  datatype Steered = Reached(value: (Place, seq<bool>)) | Fails | Starves

  predicate Inside(input: seq<u16>, d: seq<bool>, r: Steered) {
    r.Reached? ==> r.value.0.position <= |input| && |r.value.1| <= |d|
  }

  /** Matching `t` from `at`, each choice it offers decided by the next of `d`: where
      that leads, and the decisions left.  `false` is the choice tried first. */
  function Runs(flags: Flags, input: seq<u16>, t: Regex, at: Place, d: seq<bool>): (r: Steered)
    requires at.position <= |input|
    ensures Inside(input, d, r)
    decreases t, 0, 0, 0
  {
    match t
    case Empty => Reached((at, d))
    case Atom(instr) => Performs(flags, input, instr, at, d)
    case Then(left, right) =>
      var r := Runs(flags, input, left, at, d);
      if r.Reached? then Runs(flags, input, right, r.value.0, r.value.1) else r
    case Either(left, right) =>
      if d == [] then Starves else Runs(flags, input, if d[0] then right else left, at, d[1..])
    case Repeat(body, min, max, isLazy) => Turns(flags, input, body, min, max, isLazy, at, d)
    case Group(index, body) =>
      var open := Performs(flags, input, Save(Slot(2 * index)), at, d);
      if !open.Reached? then open else
      var r := Runs(flags, input, body, open.value.0, open.value.1);
      if r.Reached? then Performs(flags, input, Save(Slot(2 * index + 1)), r.value.0, r.value.1) else r
  }

  function Slot(n: nat): byte { n % 256 }

  function Performs(flags: Flags, input: seq<u16>, instr: Instr, at: Place, d: seq<bool>): (r: Steered)
    requires at.position <= |input|
    ensures Inside(input, d, r)
  {
    match Perform(flags, input, instr, at.position, at.slots)
    case Advance(position, slots) => Reached((Place(position, slots), d))
    case _ => Fails
  }

  /** The turns of a repetition: those required, then as many more as `max` admits,
      each entered or declined; declining is tried first when `lazy`. */
  function Turns(flags: Flags, input: seq<u16>, body: Regex, min: nat, max: Option<nat>, isLazy: bool, at: Place, d: seq<bool>): (r: Steered)
    requires at.position <= |input|
    ensures Inside(input, d, r)
    decreases body, 1, min, |d|
  {
    if min > 0 then
      var r := Runs(flags, input, body, at, d);
      if r.Reached? then Turns(flags, input, body, min - 1, OneLess(max), isLazy, r.value.0, r.value.1) else r
    else if max == Some(0) then Reached((at, d))
    else if d == [] then Starves
    else if d[0] != isLazy then Reached((at, d[1..]))
    else
      var r := Runs(flags, input, body, at, d[1..]);
      if r.Reached? then Turns(flags, input, body, 0, OneLess(max), isLazy, r.value.0, r.value.1) else r
  }

  function OneLess(max: Option<nat>): Option<nat> {
    match max
    case None => None
    case Some(k) => Some(if k == 0 then 0 else k - 1)
  }

  // ----- code -----

  function U16(v: int): (b: seq<byte>)
    ensures |b| == 2
  {
    [v % 256, v / 256 % 256]
  }

  function U32(v: u32): (b: seq<byte>)
    ensures |b| == 4
  {
    U16(v % 0x1_0000) + U16(v / 0x1_0000)
  }

  function RangeBytes(ranges: seq<(u16, u16)>): (b: seq<byte>)
    ensures |b| == 4 * |ranges|
  {
    if ranges == [] then [] else U16(ranges[0].0) + U16(ranges[0].1) + RangeBytes(ranges[1..])
  }

  function WideRangeBytes(ranges: seq<(u32, u32)>): (b: seq<byte>)
    ensures |b| == 8 * |ranges|
  {
    if ranges == [] then [] else U32(ranges[0].0) + U32(ranges[0].1) + WideRangeBytes(ranges[1..])
  }

  function Bit(b: bool): byte { if b then 1 else 0 }

  /** The bytes of an instruction; a class has at most 255 ranges. */
  function Encoded(instr: Instr): (b: seq<byte>)
    ensures b != []
  {
    match instr
    case Char(unit) => [CHAR] + U16(unit)
    case CharFolded(unit) => [CHAR_FOLDED] + U16(unit)
    case Any => [ANY]
    case Class(negated, ranges) => [CLASS, Bit(negated), |ranges| % 256] + RangeBytes(ranges)
    case Class32(negated, ranges) => [CLASS32, Bit(negated), |ranges| % 256] + WideRangeBytes(ranges)
    case Save(slot) => [SAVE, slot]
    case AssertStart => [ASSERT_START]
    case AssertEnd => [ASSERT_END]
    case WordBoundary(negated) => [WORD_BOUNDARY, Bit(negated)]
    case Backreference(group) => [BACKREFERENCE, group]
  }

  /** A split whose operands are displacements from themselves. */
  function SplitBytes(first: int, second: int): (b: seq<byte>)
    ensures |b| == 5
  {
    [SPLIT] + U16(first) + U16(second)
  }

  function JumpBytes(target: int): (b: seq<byte>)
    ensures |b| == 3
  {
    [JUMP] + U16(target)
  }

  /** A split that enters a body or goes past it, declining first when lazy. */
  function EnterOrSkip(enter: int, skip: int, isLazy: bool): (b: seq<byte>)
    ensures |b| == 5
  {
    if isLazy then SplitBytes(skip, enter) else SplitBytes(enter, skip)
  }

  function EitherCode(a: seq<byte>, b: seq<byte>): (c: seq<byte>)
    ensures |c| == 8 + |a| + |b|
  {
    SplitBytes(4, |a| + 7) + a + JumpBytes(|b| + 2) + b
  }

  function StarCode(a: seq<byte>, isLazy: bool): (c: seq<byte>)
    ensures |c| == 8 + |a|
  {
    EnterOrSkip(4, |a| + 7, isLazy) + a + JumpBytes(-(|a| + 6))
  }

  function PlusCode(a: seq<byte>, isLazy: bool): (c: seq<byte>)
    ensures |c| == 5 + |a|
  {
    a + EnterOrSkip(-(|a| + 1), 4, isLazy)
  }

  function Copies(a: seq<byte>, k: nat): seq<byte> { if k == 0 then [] else a + Copies(a, k - 1) }

  /** `k` optional turns, each declined to the end of them all. */
  function ChainCode(a: seq<byte>, k: nat, isLazy: bool): seq<byte> {
    if k == 0 then [] else
    var rest := ChainCode(a, k - 1, isLazy);
    EnterOrSkip(4, |a| + |rest| + 4, isLazy) + a + rest
  }

  function TailCode(a: seq<byte>, max: Option<nat>, isLazy: bool): seq<byte> {
    match max
    case None => StarCode(a, isLazy)
    case Some(k) => ChainCode(a, k, isLazy)
  }

  function Remaining(min: nat, max: Option<nat>): Option<nat> {
    match max
    case None => None
    case Some(k) => Some(if k > min then k - min else 0)
  }

  function RepeatCode(a: seq<byte>, min: nat, max: Option<nat>, isLazy: bool): seq<byte> {
    if min == 1 && max.None? then PlusCode(a, isLazy)
    else Copies(a, min) + TailCode(a, Remaining(min, max), isLazy)
  }

  function Code(t: Regex): seq<byte> {
    match t
    case Empty => []
    case Atom(instr) => Encoded(instr)
    case Then(left, right) => Code(left) + Code(right)
    case Either(left, right) => EitherCode(Code(left), Code(right))
    case Repeat(body, min, max, isLazy) => RepeatCode(Code(body), min, max, isLazy)
    case Group(index, body) => [SAVE, Slot(2 * index)] + Code(body) + [SAVE, Slot(2 * index + 1)]
  }

  const MAX_GROUPS := MAX_SLOTS / 2 - 1
  const FAR := 0x7FFF

  predicate Encodable(instr: Instr) {
    && (instr.Class? ==> |instr.ranges| < 256)
    && (instr.Class32? ==> |instr.wide| < 256)
    && (instr.Save? ==> instr.slot < MAX_SLOTS)
    && (instr.Backreference? ==> instr.group <= MAX_GROUPS)
  }

  /** What the grammar lets a tree hold. */
  predicate Proper(t: Regex) {
    match t
    case Empty => true
    case Atom(instr) => Encodable(instr)
    case Then(left, right) => Proper(left) && Proper(right)
    case Either(left, right) => Proper(left) && Proper(right)
    case Repeat(body, min, max, isLazy) => Proper(body) && (max.Some? ==> min <= max.value)
    case Group(index, body) => index <= MAX_GROUPS && Proper(body)
  }
}
