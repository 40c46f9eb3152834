/** The bytecode verifier, and what its verdict guarantees.

    `Accepts` says declaratively which functions are admitted; the methods are
    the two sweeps over a per-byte state table, proved to answer exactly that. */
module Verifier {
  import opened Words
  import opened Bytecode

  const MAX_REGION_NESTING := 32
  const NOT_START := -1
  const UNVISITED := -2

  datatype Region = Region(start: u32, end: u32, handler: u32, register: u32, contextDepth: u32)

  /** The tables of a unit image a function's record points into. */
  datatype Unit = Unit(constantCount: u32, regions: seq<Region>, safePoints: seq<u32>)

  datatype FunctionRecord = FunctionRecord(
    registerCount: u32,
    contextDepth: u32,
    exceptionOffset: u32,
    exceptionCount: u32,
    safePointOffset: u32,
    safePointCount: u32)

  /** One function of a unit, its disassembled code, and the opcodes this build refuses. */
  datatype Subject = Subject(unit: Unit, shape: FunctionRecord, code: Listing, refused: seq<byte>) {
    /** Table lookups wrap their index to 32 bits and miss past the table's end. */
    function SafePoint(slot: nat): Option<u32> {
      var at := (shape.safePointOffset + slot) % 0x1_0000_0000;
      if at < |unit.safePoints| then Some(unit.safePoints[at]) else None
    }

    function RegionAt(slot: nat): Option<Region> {
      var at := (shape.exceptionOffset + slot) % 0x1_0000_0000;
      if at < |unit.regions| then Some(unit.regions[at]) else None
    }

    predicate RegionsPresent() {
      forall slot :: 0 <= slot < shape.exceptionCount ==> RegionAt(slot).Some?
    }

    /** The function's exception table, once every entry is known to be there. */
    function Regions(): (rs: seq<Region>)
      requires RegionsPresent()
      ensures |rs| == shape.exceptionCount
      ensures forall i :: 0 <= i < |rs| ==> rs[i] == RegionAt(i).value
    {
      seq(shape.exceptionCount, i requires 0 <= i < shape.exceptionCount => RegionAt(i).value)
    }

    ghost predicate IsSafePoint(target: int) {
      exists slot :: 0 <= slot < shape.safePointCount && SafePoint(slot) == Some(target)
    }
  }

  // ----- instruction boundaries -----

  predicate Decodes(code: Listing, p: int) { 0 <= p < |code| && code[p].Some? }

  function At(code: Listing, p: int): (ins: Instruction)
    requires Decodes(code, p)
  {
    code[p].value
  }

  function Next(code: Listing, p: int): int
    requires Decodes(code, p)
  {
    p + At(code, p).length
  }

  /** `p` is reached by decoding one instruction after another from `from`. */
  ghost predicate Follows(code: Listing, from: int, p: int)
    decreases p - from
  {
    from == p || (from < p && Decodes(code, from) && from < Next(code, from) && Follows(code, Next(code, from), p))
  }

  /** An instruction starts at `p`, and it decodes. */
  ghost predicate Boundary(code: Listing, p: int) {
    Decodes(code, p) && Follows(code, 0, p)
  }

  lemma {:induction false} FollowsExtends(code: Listing, from: int, p: int)
    requires Shaped(code) && Follows(code, from, p) && Decodes(code, p)
    ensures Follows(code, from, Next(code, p))
    decreases p - from
  {
    if from < p { FollowsExtends(code, Next(code, from), p); }
  }

  /** Of two positions of one sweep, the later follows the earlier. */
  lemma {:induction false} FollowsLinear(code: Listing, from: int, p: int, q: int)
    requires Follows(code, from, p) && Follows(code, from, q) && p <= q
    ensures Follows(code, p, q)
    decreases p - from
  {
    if from < p { FollowsLinear(code, Next(code, from), p, q); }
  }

  /** No instruction starts inside another. */
  lemma NothingBetween(code: Listing, p: int, q: int)
    requires Boundary(code, p) && Follows(code, 0, q) && p < q
    ensures Next(code, p) <= q
  {
    FollowsLinear(code, 0, p, q);
  }

  /** Every position of the sweep but the first ends some instruction. */
  lemma {:induction false} HasPredecessor(code: Listing, from: int, q: int) returns (p: int)
    requires Follows(code, from, q) && from < q
    ensures Follows(code, from, p) && p < q && Decodes(code, p) && Next(code, p) == q
    decreases q - from
  {
    var next := Next(code, from);
    if next == q { p := from; } else { p := HasPredecessor(code, next, q); }
  }

  // ----- what is admitted -----

  /** Operand `k` is in the range its kind has in this function. */
  predicate OperandOk(s: Subject, ins: Instruction, k: nat)
    requires |ins.operands| == |ins.kinds| && k < |ins.operands|
    requires CountsRegisterRun(ins.opcode) ==> |ins.kinds| == 3
  {
    var value := ins.operands[k];
    match ins.kinds[k]
    case Register => value < s.shape.registerCount
    case Constant => value < s.unit.constantCount
    case Count => CountsRegisterRun(ins.opcode) ==>
                    Min(ins.operands[1] + value, U32_MAX) <= s.shape.registerCount
    case Depth => value <= s.shape.contextDepth
    case _ => true
  }

  predicate InstructionOk(s: Subject, ins: Instruction)
    requires |ins.operands| == |ins.kinds|
    requires CountsRegisterRun(ins.opcode) ==> |ins.kinds| == 3
  {
    ins.opcode !in s.refused && forall k :: 0 <= k < |ins.operands| ==> OperandOk(s, ins, k)
  }

  /** The code is one sweep of admitted instructions, the last of which ends the flow. */
  ghost predicate CodeOk(s: Subject) {
    && s.code != [] && Shaped(s.code)
    && Follows(s.code, 0, |s.code|)
    && (forall p :: Boundary(s.code, p) ==> InstructionOk(s, At(s.code, p)))
    && (forall p :: Boundary(s.code, p) && Next(s.code, p) == |s.code| ==> IsTerminator(At(s.code, p).opcode))
  }

  /** Safe points ascend, and instructions start at them. */
  ghost predicate SafePointsOk(s: Subject) {
    && (forall i :: 0 <= i < s.shape.safePointCount ==>
          s.SafePoint(i).Some? && Boundary(s.code, s.SafePoint(i).value))
    && (forall i, j :: 0 <= i < j < s.shape.safePointCount ==> s.SafePoint(i).value < s.SafePoint(j).value)
  }

  ghost predicate RegionShapeOk(s: Subject, r: Region) {
    && r.start < r.end <= |s.code|
    && r.register < s.shape.registerCount
    && Boundary(s.code, r.start)
    && (r.handler < |s.code| ==> Boundary(s.code, r.handler))
  }

  /** The ends, in table order, of the first `n` regions still open past `at`. */
  function OpenEnds(rs: seq<Region>, n: nat, at: int): (ends: seq<u32>)
    requires n <= |rs|
    ensures |ends| <= n
  {
    if n == 0 then []
    else if rs[n - 1].end > at then OpenEnds(rs, n - 1, at) + [rs[n - 1].end]
    else OpenEnds(rs, n - 1, at)
  }

  /** A later region lies after an earlier one or inside it. */
  predicate AfterOrInside(earlier: Region, later: Region) {
    earlier.start <= later.start && (earlier.end <= later.start || later.end <= earlier.end)
  }

  ghost predicate Laminar(rs: seq<Region>) {
    forall i, j :: 0 <= i < j < |rs| ==> AfterOrInside(rs[i], rs[j])
  }

  /** Fewer regions than the stack holds are open where region `j` starts. */
  predicate Shallow(rs: seq<Region>, j: nat)
    requires j < |rs|
  {
    |OpenEnds(rs, j, rs[j].start)| < MAX_REGION_NESTING
  }

  /** A region table that is ordered, laminar, and nested no deeper than admitted. */
  ghost predicate NestingOk(rs: seq<Region>) {
    Laminar(rs) && forall j :: 0 <= j < |rs| ==> Shallow(rs, j)
  }

  ghost predicate RegionsOk(s: Subject) {
    s.RegionsPresent() && (forall i :: 0 <= i < |s.Regions()| ==> RegionShapeOk(s, s.Regions()[i])) && NestingOk(s.Regions())
  }

  /** The context depth an instruction leaves behind. */
  function After(op: byte, depth: int): int {
    if op == PUSH_CONTEXT || op == PUSH_OBJECT_CONTEXT then depth + 1
    else if op == POP_CONTEXT then depth - 1
    else depth
  }

  function Target(code: Listing, p: int): int
    requires Decodes(code, p) && IsBranch(At(code, p).opcode) && |At(code, p).signed| == 1
  {
    p + At(code, p).signed[0]
  }

  /** A depth table `e` is consistent at `p`, leaving the fall-through edge aside. */
  ghost predicate SettledAt(s: Subject, e: seq<int>, p: int)
    requires |e| == |s.code| && Shaped(s.code) && Boundary(s.code, p) && s.RegionsPresent()
  {
    var ins := At(s.code, p);
    var next := After(ins.opcode, e[p]);
    && 0 <= e[p]
    && 0 <= next <= Min(s.shape.contextDepth, I32_MAX)
    && (ins.opcode == RETURN ==> next == 0)
    && (IsBranch(ins.opcode) ==>
          var t := Target(s.code, p);
          Boundary(s.code, t) && e[t] == next && (t <= p ==> s.IsSafePoint(t)))
    && (forall i :: 0 <= i < |s.Regions()| && s.Regions()[i].start == p ==>
          s.Regions()[i].contextDepth == e[p] && (s.Regions()[i].handler < |s.code| ==> e[s.Regions()[i].handler] == e[p]))
  }

  ghost predicate FallsThroughSettled(s: Subject, e: seq<int>, p: int)
    requires |e| == |s.code| && Boundary(s.code, p)
  {
    var op := At(s.code, p).opcode;
    !IsTerminator(op) && p < Next(s.code, p) < |s.code| ==> e[Next(s.code, p)] == After(op, e[p])
  }

  /** `e` gives every instruction the one context depth control reaches it with. */
  ghost predicate Settled(s: Subject, e: seq<int>) {
    && |e| == |s.code| > 0 && e[0] == 0
    && Shaped(s.code) && s.RegionsPresent()
    && forall p :: Boundary(s.code, p) ==> SettledAt(s, e, p) && FallsThroughSettled(s, e, p)
  }

  /** Control falls into `p` from the instruction before it. */
  ghost predicate FallsInto(code: Listing, p: int) {
    exists q :: Boundary(code, q) && Next(code, q) == p && !IsTerminator(At(code, q).opcode)
  }

  /** `p` is where a branch at `q`, or a throw in a region starting at `q`, goes. */
  ghost predicate Enters(s: Subject, q: int, p: int)
    requires Shaped(s.code) && s.RegionsPresent()
  {
    && Boundary(s.code, q)
    && (|| (IsBranch(At(s.code, q).opcode) && Target(s.code, q) == p)
        || exists i :: 0 <= i < |s.Regions()| && s.Regions()[i].start == q && s.Regions()[i].handler == p)
  }

  /** Something before `limit` transfers control to `p`. */
  ghost predicate Entered(s: Subject, p: int, limit: int)
    requires Shaped(s.code) && s.RegionsPresent()
  {
    exists q :: q < limit && Enters(s, q, p)
  }

  ghost predicate Reached(s: Subject, p: int)
    requires Shaped(s.code) && s.RegionsPresent()
  {
    p == 0 || FallsInto(s.code, p) || Entered(s, p, p)
  }

  /** What the verifier admits. */
  ghost predicate Accepts(s: Subject) {
    && CodeOk(s) && SafePointsOk(s) && RegionsOk(s)
    && (forall p :: Boundary(s.code, p) ==> Reached(s, p))
    && (exists e :: Settled(s, e))
  }
}
