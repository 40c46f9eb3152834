/** Compiled patterns: their instructions, and what one run of a program does when
    every split it meets is decided in advance. */
module PatternPrograms {
  import opened Words

  type u16 = x: int | 0 <= x < 0x1_0000

  const MAX_SLOTS := 64

  type Slots = s: seq<u32> | |s| == MAX_SLOTS witness seq(MAX_SLOTS, _ => 0)

  /** The flags that change what an instruction matches. */
  datatype Flags = Flags(ignoreCase: bool, multiline: bool, dotAll: bool, unicode: bool)

  datatype Program = Program(code: seq<byte>, flags: Flags)

  const CHAR: byte := 0x01
  const CHAR_FOLDED: byte := 0x02
  const ANY: byte := 0x03
  const CLASS: byte := 0x04
  const SPLIT: byte := 0x05
  const JUMP: byte := 0x06
  const SAVE: byte := 0x07
  const MATCH: byte := 0x08
  const ASSERT_START: byte := 0x09
  const ASSERT_END: byte := 0x0A
  const WORD_BOUNDARY: byte := 0x0B
  const BACKREFERENCE: byte := 0x0C
  const CLASS32: byte := 0x0E

  /** An instruction that neither branches nor ends the match. */
  datatype Instr =
    | Char(unit: u16)
    | CharFolded(unit: u16)
    | Any
    | Class(negated: bool, ranges: seq<(u16, u16)>)
    | Class32(negated: bool, wide: seq<(u32, u32)>)
    | Save(slot: byte)
    | AssertStart
    | AssertEnd
    | WordBoundary(negated: bool)
    | Backreference(group: byte)

  datatype Command =
    | Plain(instr: Instr, width: nat)
    | Split(first: nat, second: nat)
    | Jump(target: nat)
    | Match
    | Unknown

  // ----- reading -----

  /** A byte of the code, zero past its end. */
  function At(code: seq<byte>, at: nat): byte { if at < |code| then code[at] else 0 }

  function ReadU16(code: seq<byte>, at: nat): u16 { At(code, at) + 256 * At(code, at + 1) }

  function ReadU32(code: seq<byte>, at: nat): u32 { ReadU16(code, at) + 0x1_0000 * ReadU16(code, at + 2) }

  function ReadI16(code: seq<byte>, at: nat): int {
    var u := ReadU16(code, at);
    if u >= 0x8000 then u - 0x1_0000 else u
  }

  /** Where a displacement from `base` leads, but never below zero. */
  function Offset(base: nat, displacement: int): nat { if base + displacement < 0 then 0 else base + displacement }

  function Fetch(code: seq<byte>, pc: nat): Command {
    if pc >= |code| then Unknown
    else
      var opcode := code[pc];
      if opcode == MATCH then Match
      else if opcode == CHAR then Plain(Char(ReadU16(code, pc + 1)), 3)
      else if opcode == CHAR_FOLDED then Plain(CharFolded(ReadU16(code, pc + 1)), 3)
      else if opcode == ANY then Plain(Any, 1)
      else if opcode == CLASS then
        Plain(Class(At(code, pc + 1) != 0, Ranges(code, pc + 3, At(code, pc + 2))), 3 + 4 * At(code, pc + 2))
      else if opcode == CLASS32 then
        Plain(Class32(At(code, pc + 1) != 0, WideRanges(code, pc + 3, At(code, pc + 2))), 3 + 8 * At(code, pc + 2))
      else if opcode == SPLIT then Split(Offset(pc + 1, ReadI16(code, pc + 1)), Offset(pc + 1, ReadI16(code, pc + 3)))
      else if opcode == JUMP then Jump(Offset(pc + 1, ReadI16(code, pc + 1)))
      else if opcode == SAVE then Plain(Save(At(code, pc + 1)), 2)
      else if opcode == ASSERT_START then Plain(AssertStart, 1)
      else if opcode == ASSERT_END then Plain(AssertEnd, 1)
      else if opcode == WORD_BOUNDARY then Plain(WordBoundary(At(code, pc + 1) != 0), 2)
      else if opcode == BACKREFERENCE then Plain(Backreference(At(code, pc + 1)), 2)
      else Unknown
  }

  function Ranges(code: seq<byte>, at: nat, count: nat): (r: seq<(u16, u16)>)
    ensures |r| == count
  {
    seq(count, i requires 0 <= i < count => (ReadU16(code, at + 4 * i), ReadU16(code, at + 4 * i + 2)))
  }

  function WideRanges(code: seq<byte>, at: nat, count: nat): (r: seq<(u32, u32)>)
    ensures |r| == count
  {
    seq(count, i requires 0 <= i < count => (ReadU32(code, at + 8 * i), ReadU32(code, at + 8 * i + 4)))
  }

  // ----- what an instruction does -----

  datatype Effect = Advance(position: nat, slots: Slots) | Fail | Stop

  function Fold(unit: u16): u16 {
    if 0x41 <= unit <= 0x5A || (0xC0 <= unit <= 0xDE && unit != 0xD7) then unit + 32 else unit
  }

  function FoldUnicode(unit: u16): u16 {
    if unit == 0x212A then 0x6B else if unit == 0x212B then 0xE5 else if unit == 0x17F then 0x73 else Fold(unit)
  }

  predicate IsWordUnit(unit: u16) {
    0x30 <= unit <= 0x39 || 0x41 <= unit <= 0x5A || unit == 0x5F || 0x61 <= unit <= 0x7A
  }

  predicate IsLineTerminator(unit: u16) { unit == 0x0A || unit == 0x0D || unit == 0x2028 || unit == 0x2029 }

  predicate PairAt(input: seq<u16>, position: nat) {
    position + 1 < |input| && 0xD800 <= input[position] < 0xDC00 && 0xDC00 <= input[position + 1] < 0xE000
  }

  /** The code point at a position, and how many units spell it. */
  function PointAt(input: seq<u16>, position: nat): (u32, nat)
    requires position < |input|
  {
    if PairAt(input, position) then
      var high: int, low: int := input[position], input[position + 1];
      (0x10000 + (high - 0xD800) * 0x400 + (low - 0xDC00), 2)
    else (input[position], 1)
  }

  predicate InRange(flags: Flags, unit: u16, range: (u16, u16)) {
    || range.0 <= unit <= range.1
    || (flags.ignoreCase && Fold(range.0) <= Fold(unit) <= Fold(range.1) && range.0 <= range.1)
  }

  predicate InWideRange(flags: Flags, point: u32, range: (u32, u32)) {
    var folded := if flags.ignoreCase && point <= 0xFFFF then Fold(point) else point;
    range.0 <= point <= range.1 || range.0 <= folded <= range.1
  }

  predicate InClass(flags: Flags, unit: u16, ranges: seq<(u16, u16)>) {
    exists i :: 0 <= i < |ranges| && InRange(flags, unit, ranges[i])
  }

  predicate InWideClass(flags: Flags, point: u32, ranges: seq<(u32, u32)>) {
    exists i :: 0 <= i < |ranges| && InWideRange(flags, point, ranges[i])
  }

  /** Unit `i` after one place repeats unit `i` after another. */
  predicate SameUnit(flags: Flags, input: seq<u16>, start: nat, position: nat, i: nat) {
    && start + i < |input| && position + i < |input|
    && var left, right := input[start + i], input[position + i];
       if flags.ignoreCase then Fold(left) == Fold(right) else left == right
  }

  predicate Repeats(flags: Flags, input: seq<u16>, start: nat, position: nat, length: nat) {
    forall i :: 0 <= i < length ==> SameUnit(flags, input, start, position, i)
  }

  function Clip(position: nat): u32 { if position > U32_MAX then U32_MAX else position }

  function When(c: bool, position: nat, slots: Slots): Effect { if c then Advance(position, slots) else Fail }

  function Perform(flags: Flags, input: seq<u16>, instr: Instr, position: nat, slots: Slots): (e: Effect)
    requires position <= |input|
    ensures e.Advance? ==> e.position <= |input|
  {
    match instr
    case Char(unit) => When(position < |input| && input[position] == unit, position + 1, slots)
    case CharFolded(unit) =>
      When(position < |input| && (if flags.unicode then FoldUnicode(input[position]) else Fold(input[position])) == unit,
           position + 1, slots)
    case Any =>
      When(position < |input| && (flags.dotAll || !IsLineTerminator(input[position])),
           if flags.unicode && PairAt(input, position) then position + 2 else position + 1, slots)
    case Class(negated, ranges) =>
      When(position < |input| && InClass(flags, input[position], ranges) != negated, position + 1, slots)
    case Class32(negated, ranges) =>
      if position >= |input| then Fail else
      var (point, width) := PointAt(input, position);
      When(InWideClass(flags, point, ranges) != negated, position + width, slots)
    case Save(slot) => if slot >= MAX_SLOTS then Stop else Advance(position, slots[slot := Clip(position)])
    case AssertStart =>
      When(position == 0 || (flags.multiline && IsLineTerminator(input[position - 1])), position, slots)
    case AssertEnd =>
      When(position == |input| || (flags.multiline && IsLineTerminator(input[position])), position, slots)
    case WordBoundary(negated) =>
      var before := position > 0 && IsWordUnit(input[position - 1]);
      var after := position < |input| && IsWordUnit(input[position]);
      When((before != after) != negated, position, slots)
    case Backreference(group) =>
      if 2 * group + 1 >= MAX_SLOTS then Stop else
      var start, end := slots[2 * group], slots[2 * group + 1];
      if start == U32_MAX || end == U32_MAX then Advance(position, slots) else
      var length := if end > start then end - start else 0;
      RepeatsFit(flags, input, start, position, length);
      When(Repeats(flags, input, start, position, length), position + length, slots)
  }

  lemma RepeatsFit(flags: Flags, input: seq<u16>, start: nat, position: nat, length: nat)
    requires position <= |input|
    ensures Repeats(flags, input, start, position, length) ==> position + length <= |input|
  {
    if Repeats(flags, input, start, position, length) && length > 0 {
      assert SameUnit(flags, input, start, position, length - 1);
    }
  }

  // ----- runs -----

  /** A matcher in mid-run: `pending` decides the splits still to come, `false` for
      the first branch. */
  datatype Config = Config(pc: nat, position: nat, slots: Slots, pending: seq<bool>)

  datatype Outcome =
    | Running(config: Config)
    | Matched(slots: Slots, pending: seq<bool>)
    | Failed
    | Starved  // a split, and no decision left for it
    | Stopped  // not an instruction, or a slot that does not exist

  predicate Within(input: seq<u16>, o: Outcome) { o.Running? ==> o.config.position <= |input| }

  function Next(p: Program, input: seq<u16>, c: Config): (o: Outcome)
    requires c.position <= |input|
    ensures Within(input, o)
  {
    match Fetch(p.code, c.pc)
    case Match => Matched(c.slots[1 := Clip(c.position)], c.pending)
    case Split(first, second) =>
      if c.pending == [] then Starved
      else Running(c.(pc := if c.pending[0] then second else first, pending := c.pending[1..]))
    case Jump(target) => Running(c.(pc := target))
    case Unknown => Stopped
    case Plain(instr, width) =>
      match Perform(p.flags, input, instr, c.position, c.slots)
      case Advance(position, slots) => Running(Config(c.pc + width, position, slots, c.pending))
      case Fail => Failed
      case Stop => Stopped
  }

  /** The outcome after at most `n` instructions. */
  function After(p: Program, input: seq<u16>, o: Outcome, n: nat): (r: Outcome)
    requires Within(input, o)
    ensures Within(input, r)
    decreases n
  {
    if n == 0 || !o.Running? then o else After(p, input, Next(p, input, o.config), n - 1)
  }

  function Started(start: nat, decisions: seq<bool>): Outcome {
    Running(Config(0, start, seq(MAX_SLOTS, i => if i == 0 then Clip(start) else U32_MAX), decisions))
  }

  /** The run that these decisions, and no more, steer to a match with these slots. */
  ghost predicate Accepts(p: Program, input: seq<u16>, start: nat, decisions: seq<bool>, slots: Slots)
    requires start <= |input|
  {
    exists n: nat :: After(p, input, Started(start, decisions), n) == Matched(slots, [])
  }

  /** `a` takes the first branch where `b` takes the second. */
  ghost predicate Before(a: seq<bool>, b: seq<bool>) {
    exists k :: 0 <= k < |a| && k < |b| && !a[k] && b[k] && a[..k] == b[..k]
  }

  /** The match an ordered search finds: every other match comes later. */
  ghost predicate First(p: Program, input: seq<u16>, start: nat, decisions: seq<bool>, slots: Slots)
    requires start <= |input|
  {
    && Accepts(p, input, start, decisions, slots)
    && forall d, s :: Accepts(p, input, start, d, s) ==> (d == decisions && s == slots) || Before(decisions, d)
  }

  ghost predicate NoMatch(p: Program, input: seq<u16>, start: nat)
    requires start <= |input|
  {
    forall d, s :: !Accepts(p, input, start, d, s)
  }

  /** Some run leaves the instruction set. */
  ghost predicate CanStop(p: Program, input: seq<u16>, start: nat)
    requires start <= |input|
  {
    exists d: seq<bool>, n: nat :: After(p, input, Started(start, d), n) == Stopped
  }

  // ----- determinism -----

  lemma {:induction false} AfterSum(p: Program, input: seq<u16>, o: Outcome, m: nat, n: nat)
    requires Within(input, o)
    ensures After(p, input, o, m + n) == After(p, input, After(p, input, o, m), n)
    decreases m
  {
    hide Next;
    if m > 0 && o.Running? { AfterSum(p, input, Next(p, input, o.config), m - 1, n); }
  }

  /** A run ends in one way. */
  lemma OneEnding(p: Program, input: seq<u16>, o: Outcome, m: nat, n: nat)
    requires Within(input, o) && !After(p, input, o, m).Running? && !After(p, input, o, n).Running?
    ensures After(p, input, o, m) == After(p, input, o, n)
  {
    hide Next;
    if m <= n { AfterSum(p, input, o, m, n - m); } else { AfterSum(p, input, o, n, m - n); }
  }

  function More(c: Config, extra: seq<bool>): Config { c.(pending := c.pending + extra) }

  /** Decisions not yet reached change nothing. */
  lemma {:induction false} AfterMore(p: Program, input: seq<u16>, c: Config, extra: seq<bool>, n: nat)
    requires c.position <= |input| && After(p, input, Running(c), n).Running?
    ensures After(p, input, Running(More(c, extra)), n) == Running(More(After(p, input, Running(c), n).config, extra))
    decreases n
  {
    if n > 0 {
      NextMore(p, input, c, extra);
      var o := Next(p, input, c);
      hide Next;
      assert o.Running?;
      AfterMore(p, input, o.config, extra, n - 1);
    }
  }

  lemma NextMore(p: Program, input: seq<u16>, c: Config, extra: seq<bool>)
    requires c.position <= |input|
    ensures var o := Next(p, input, c);
            && (o.Running? ==> Next(p, input, More(c, extra)) == Running(More(o.config, extra)))
            && (o.Failed? || o.Stopped? ==> Next(p, input, More(c, extra)) == o)
  {
    hide Perform, Fetch;
    if c.pending != [] {
      assert (c.pending + extra)[0] == c.pending[0];
      assert (c.pending + extra)[1..] == c.pending[1..] + extra;
    }
  }
}
