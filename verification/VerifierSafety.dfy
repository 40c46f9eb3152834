/** What admission guarantees about every run of an admitted function.

    The machine is abstracted to its program counter and the number of contexts
    it has entered; it may take either way out of a conditional branch, and any
    instruction may throw. */
module VerifierSafety {
  import opened Words
  import opened Bytecode
  import opened Verifier

  datatype Frame = Frame(pc: int, depth: int)

  ghost predicate NormalStep(s: Subject, m: Frame, m': Frame) {
    && Shaped(s.code) && Decodes(s.code, m.pc)
    && var op := At(s.code, m.pc).opcode;
    && op != RETURN && op != THROW
    && m'.depth == After(op, m.depth)
    && (|| (IsBranch(op) && m'.pc == Target(s.code, m.pc))
        || (!IsTerminator(op) && m'.pc == Next(s.code, m.pc)))
  }

  /** A step in plain numbers: a return and a throw end the run, a jump goes its way,
      the other branches go theirs or fall through, everything else falls through; and
      two opcodes enter a context while one leaves it. */
  lemma StepsAre(s: Subject, m: Frame, m': Frame)
    requires Shaped(s.code) && Decodes(s.code, m.pc)
    ensures var ins := At(s.code, m.pc);
            NormalStep(s, m, m') <==>
              && ins.opcode != 0x97 && ins.opcode != 0x98
              && m'.depth == m.depth + (if ins.opcode == 0x64 || ins.opcode == 0xB2 then 1 else if ins.opcode == 0x65 then -1 else 0)
              && if ins.opcode == 0x90 then |ins.signed| == 1 && m'.pc == m.pc + ins.signed[0]
                 else if 0x91 <= ins.opcode <= 0x96 || ins.opcode == 0x99 then
                   |ins.signed| == 1 && (m'.pc == m.pc + ins.signed[0] || m'.pc == m.pc + ins.length)
                 else m'.pc == m.pc + ins.length
  {}

  predicate Covers(r: Region, position: int) { r.start <= position < r.end }

  /** Region `k` is the one a throw at `position` goes to: the last that covers it. */
  ghost predicate Catches(rs: seq<Region>, k: int, position: int) {
    && 0 <= k < |rs| && Covers(rs[k], position)
    && forall j :: k < j < |rs| ==> !Covers(rs[j], position)
  }

  /** The machine asks with the last byte of the throwing instruction. */
  function ThrowPosition(s: Subject, pc: int): int
    requires Decodes(s.code, pc)
  {
    Next(s.code, pc) - 1
  }

  /** Unwinding leaves contexts down to the region's depth; it cannot re-enter any. */
  ghost predicate ThrowStep(s: Subject, m: Frame, m': Frame) {
    && s.RegionsPresent() && Decodes(s.code, m.pc)
    && exists k :: Catches(s.Regions(), k, ThrowPosition(s, m.pc))
                   && m' == Frame(s.Regions()[k].handler, Min(m.depth, s.Regions()[k].contextDepth))
  }

  ghost predicate IsRun(s: Subject, run: seq<Frame>) {
    && run != [] && run[0] == Frame(0, 0)
    && forall i :: 0 < i < |run| ==> NormalStep(s, run[i - 1], run[i])
  }

  ghost predicate IsThrowingRun(s: Subject, run: seq<Frame>) {
    && run != [] && run[0] == Frame(0, 0)
    && forall i :: 0 < i < |run| ==> NormalStep(s, run[i - 1], run[i]) || ThrowStep(s, run[i - 1], run[i])
  }

  /** Every register operand names a register of the frame, every constant operand a
      constant of the unit, every depth operand a depth the function may reach, and the
      opcode is not one the build refuses. */
  ghost predicate InBounds(s: Subject, ins: Instruction)
    requires |ins.operands| == |ins.kinds|
  {
    && ins.opcode !in s.refused
    && (forall k :: 0 <= k < |ins.operands| && ins.kinds[k] == Register ==> ins.operands[k] < s.shape.registerCount)
    && (forall k :: 0 <= k < |ins.operands| && ins.kinds[k] == Constant ==> ins.operands[k] < s.unit.constantCount)
    && (forall k :: 0 <= k < |ins.operands| && ins.kinds[k] == Depth ==> ins.operands[k] <= s.shape.contextDepth)
  }

  /** The registers a call passes lie in the frame, as far as a saturating sum can tell. */
  ghost predicate RunInBounds(s: Subject, ins: Instruction)
    requires |ins.operands| == |ins.kinds|
  {
    ins.opcode in {CALL, CALL_PROPERTY, CONSTRUCT, TAIL_CALL} && s.shape.registerCount != U32_MAX && |ins.operands| > 1 ==>
      forall k :: 0 <= k < |ins.operands| && ins.kinds[k] == Count ==> ins.operands[1] + ins.operands[k] <= s.shape.registerCount
  }

  /** An instruction is admitted exactly when it is in bounds, and its argument run too. */
  lemma AdmittedExactlyInBounds(s: Subject, ins: Instruction)
    requires |ins.operands| == |ins.kinds| && (CountsRegisterRun(ins.opcode) ==> |ins.kinds| == 3)
    ensures InstructionOk(s, ins) <==> InBounds(s, ins) && RunInBounds(s, ins)
  {
    hide InstructionOk;
    AdmittedEach(s, ins);
    if InBounds(s, ins) && RunInBounds(s, ins) {
      forall k | 0 <= k < |ins.operands| ensures OperandOk(s, ins, k) {
        if CountsRegisterRun(ins.opcode) && ins.kinds[k] == Count && s.shape.registerCount != U32_MAX {
          assert ins.operands[1] + ins.operands[k] <= s.shape.registerCount;
        }
      }
    }
    if InstructionOk(s, ins) {
      forall k | 0 <= k < |ins.operands|
        ensures ins.kinds[k] == Register ==> ins.operands[k] < s.shape.registerCount
        ensures ins.kinds[k] == Constant ==> ins.operands[k] < s.unit.constantCount
        ensures ins.kinds[k] == Depth ==> ins.operands[k] <= s.shape.contextDepth
        ensures ins.kinds[k] == Count && CountsRegisterRun(ins.opcode) && s.shape.registerCount != U32_MAX ==>
                  ins.operands[1] + ins.operands[k] <= s.shape.registerCount
      {
        assert OperandOk(s, ins, k);
      }
    }
  }

  lemma AdmittedEach(s: Subject, ins: Instruction)
    requires |ins.operands| == |ins.kinds| && (CountsRegisterRun(ins.opcode) ==> |ins.kinds| == 3)
    ensures InstructionOk(s, ins) <==>
            ins.opcode !in s.refused && forall k :: 0 <= k < |ins.operands| ==> OperandOk(s, ins, k)
  {}

  lemma RunSignatures(op: byte)
    ensures CountsRegisterRun(op) <==> op in {CALL, CALL_PROPERTY, CONSTRUCT, TAIL_CALL}
    ensures CountsRegisterRun(op) ==> Signature(op) == [Register, Register, Count]
  {}

  /** The machine is on an instruction it can execute without leaving its bounds:
      the depth is the recorded one and within the declared limit, operands are
      in range, a return balances, and every way on is an instruction boundary. */
  ghost predicate Safe(s: Subject, e: seq<int>, m: Frame) {
    && Shaped(s.code) && |e| == |s.code| && Boundary(s.code, m.pc)
    && m.depth == e[m.pc] && 0 <= m.depth <= s.shape.contextDepth
    && var ins := At(s.code, m.pc);
    && InBounds(s, ins) && RunInBounds(s, ins)
    && (ins.opcode == RETURN ==> m.depth == 0)
    && (IsBranch(ins.opcode) ==> Boundary(s.code, Target(s.code, m.pc)))
    && (!IsTerminator(ins.opcode) ==> Boundary(s.code, Next(s.code, m.pc)))
  }

  lemma FallsOnBoundary(s: Subject, p: int)
    requires CodeOk(s) && Boundary(s.code, p) && !IsTerminator(At(s.code, p).opcode)
    ensures Boundary(s.code, Next(s.code, p))
  {
    FollowsExtends(s.code, 0, p);
    FollowsLinear(s.code, 0, Next(s.code, p), |s.code|);
  }

  /** Recorded depths stay within what the function declares. */
  lemma {:induction false} DepthDeclared(s: Subject, e: seq<int>, p: int)
    requires Accepts(s) && Settled(s, e) && Boundary(s.code, p)
    ensures e[p] <= s.shape.contextDepth
    decreases p
  {
    assert Reached(s, p);
    if p == 0 {
    } else if FallsInto(s.code, p) {
      var q :| Boundary(s.code, q) && Next(s.code, q) == p && !IsTerminator(At(s.code, q).opcode);
      assert SettledAt(s, e, q) && FallsThroughSettled(s, e, q);
    } else {
      var q :| q < p && Enters(s, q, p);
      assert SettledAt(s, e, q);
      DepthDeclared(s, e, q);
    }
  }

  lemma SafeAtRecordedDepth(s: Subject, e: seq<int>, p: int)
    requires Accepts(s) && Settled(s, e) && Boundary(s.code, p)
    ensures Safe(s, e, Frame(p, e[p]))
  {
    hide InBounds, RunInBounds, NestingOk, SafePointsOk, Reached, Follows;
    assert SettledAt(s, e, p);
    DepthDeclared(s, e, p);
    InstructionInBounds(s, p);
    if !IsTerminator(At(s.code, p).opcode) { FallsOnBoundary(s, p); }
  }

  lemma InstructionInBounds(s: Subject, p: int)
    requires CodeOk(s) && Boundary(s.code, p)
    ensures InBounds(s, At(s.code, p)) && RunInBounds(s, At(s.code, p))
  {
    hide InBounds, RunInBounds, Follows;
    assert InstructionOk(s, At(s.code, p));
    AdmittedExactlyInBounds(s, At(s.code, p));
  }

  lemma NormalStepSafe(s: Subject, e: seq<int>, m: Frame, m': Frame)
    requires Accepts(s) && Settled(s, e) && Safe(s, e, m) && NormalStep(s, m, m')
    ensures Safe(s, e, m')
  {
    assert SettledAt(s, e, m.pc) && FallsThroughSettled(s, e, m.pc);
    SafeAtRecordedDepth(s, e, m'.pc);
  }

  lemma StartsSafe(s: Subject, e: seq<int>)
    requires Accepts(s) && Settled(s, e)
    ensures Safe(s, e, Frame(0, 0))
  {
    FollowsLinear(s.code, 0, 0, |s.code|);
    SafeAtRecordedDepth(s, e, 0);
  }

  /** An admitted function's runs never leave its code or its declared bounds. */
  lemma {:induction false} AdmittedRunsAreSafe(s: Subject, e: seq<int>, run: seq<Frame>, n: int)
    requires Accepts(s) && Settled(s, e) && IsRun(s, run) && 0 <= n < |run|
    ensures Safe(s, e, run[n])
  {
    if n == 0 {
      StartsSafe(s, e);
    } else {
      AdmittedRunsAreSafe(s, e, run, n - 1);
      NormalStepSafe(s, e, run[n - 1], run[n]);
    }
  }

  /** A safe machine is never stuck: unless it returns or throws, it has a next step. */
  lemma SafeMachinesMove(s: Subject, e: seq<int>, m: Frame)
    requires Safe(s, e, m) && At(s.code, m.pc).opcode != RETURN && At(s.code, m.pc).opcode != THROW
    ensures exists m' :: NormalStep(s, m, m')
  {
    var op := At(s.code, m.pc).opcode;
    if IsTerminator(op) {
      assert NormalStep(s, m, Frame(Target(s.code, m.pc), After(op, m.depth)));
    } else {
      assert NormalStep(s, m, Frame(Next(s.code, m.pc), After(op, m.depth)));
    }
  }

  // ----- tables -----

  /** A table slice that does not wrap is what the record says it is. */
  lemma SafePointsAreSlice(s: Subject, target: int)
    requires s.shape.safePointOffset + s.shape.safePointCount <= |s.unit.safePoints| <= 0x1_0000_0000
    ensures s.IsSafePoint(target) <==>
            target in s.unit.safePoints[s.shape.safePointOffset..s.shape.safePointOffset + s.shape.safePointCount]
    ensures forall slot :: 0 <= slot < s.shape.safePointCount ==>
              s.SafePoint(slot) == Some(s.unit.safePoints[s.shape.safePointOffset + slot])
  {
    var offset: int, slice := s.shape.safePointOffset,
      s.unit.safePoints[s.shape.safePointOffset..s.shape.safePointOffset + s.shape.safePointCount];
    forall slot | 0 <= slot < s.shape.safePointCount ensures s.SafePoint(slot) == Some(slice[slot]) {
      assert (offset + slot) % 0x1_0000_0000 == offset + slot;
    }
    if target in slice {
      var i :| 0 <= i < |slice| && slice[i] == target;
      assert s.SafePoint(i) == Some(target);
    }
  }

  /** Where the slot of a table would lie beyond 32 bits, it lies that much nearer the front. */
  lemma TablesWrap(s: Subject, slot: nat)
    requires slot <= U32_MAX
    ensures var at := s.shape.safePointOffset + slot;
            at >= 0x1_0000_0000 ==>
              s.SafePoint(slot) == if at - 0x1_0000_0000 < |s.unit.safePoints| then Some(s.unit.safePoints[at - 0x1_0000_0000]) else None
    ensures var at := s.shape.exceptionOffset + slot;
            at >= 0x1_0000_0000 ==>
              s.RegionAt(slot) == if at - 0x1_0000_0000 < |s.unit.regions| then Some(s.unit.regions[at - 0x1_0000_0000]) else None
  {}

  lemma RegionsAreSlice(s: Subject)
    requires s.shape.exceptionOffset + s.shape.exceptionCount <= |s.unit.regions| <= 0x1_0000_0000
    ensures s.RegionsPresent()
    ensures s.Regions() == s.unit.regions[s.shape.exceptionOffset..s.shape.exceptionOffset + s.shape.exceptionCount]
  {
    var offset: int := s.shape.exceptionOffset;
    forall slot | 0 <= slot < s.shape.exceptionCount ensures s.RegionAt(slot) == Some(s.unit.regions[offset + slot]) {
      assert (offset + slot) % 0x1_0000_0000 == offset + slot;
    }
  }

  /** The earlier regions still open past `at`, by their places in the table. */
  function OpenRegions(rs: seq<Region>, n: nat, at: int): set<int>
    requires n <= |rs|
  {
    set i | 0 <= i < n && rs[i].end > at
  }

  lemma {:induction false} OpenCount(rs: seq<Region>, n: nat, at: int)
    requires n <= |rs|
    ensures |OpenRegions(rs, n, at)| == |OpenEnds(rs, n, at)|
  {
    if n == 0 {
      assert OpenRegions(rs, 0, at) == {};
    } else {
      OpenCount(rs, n - 1, at);
      if rs[n - 1].end > at {
        assert OpenRegions(rs, n, at) == OpenRegions(rs, n - 1, at) + {n - 1};
      } else {
        assert OpenRegions(rs, n, at) == OpenRegions(rs, n - 1, at);
      }
    }
  }

  /** An entry of an exception table: a stretch of the code from an instruction on, a
      register of the frame, and a handler that is an instruction if it is in the code. */
  ghost predicate RegionInBounds(s: Subject, r: Region) {
    && 0 <= r.start < r.end <= |s.code| && r.register < s.shape.registerCount && Boundary(s.code, r.start)
    && (r.handler < |s.code| ==> Boundary(s.code, r.handler))
  }

  /** A table is admitted exactly when its entries are in bounds and start in order,
      any two are nested or apart, and none starts inside thirty-two others. */
  lemma RegionsAdmittedExactly(s: Subject)
    ensures RegionsOk(s) <==>
      && s.RegionsPresent()
      && (forall i :: 0 <= i < |s.Regions()| ==> RegionInBounds(s, s.Regions()[i]))
      && (forall i, j :: 0 <= i < j < |s.Regions()| ==> s.Regions()[i].start <= s.Regions()[j].start)
      && (forall i, j :: 0 <= i < j < |s.Regions()| ==>
            s.Regions()[i].end <= s.Regions()[j].start || s.Regions()[j].end <= s.Regions()[i].end)
      && (forall j :: 0 <= j < |s.Regions()| ==> |OpenRegions(s.Regions(), j, s.Regions()[j].start)| < 32)
  {
    hide OpenEnds, OpenRegions, Follows;
    if s.RegionsPresent() {
      var rs := s.Regions();
      forall j | 0 <= j < |rs| ensures Shallow(rs, j) <==> |OpenRegions(rs, j, rs[j].start)| < 32 {
        OpenCount(rs, j, rs[j].start);
      }
      LaminarIs(rs);
      hide Laminar, Shallow;
      forall i | 0 <= i < |rs| ensures RegionShapeOk(s, rs[i]) <==> RegionInBounds(s, rs[i]) {}
    }
  }

  lemma LaminarIs(rs: seq<Region>)
    ensures Laminar(rs) <==>
      && (forall i, j :: 0 <= i < j < |rs| ==> rs[i].start <= rs[j].start)
      && (forall i, j :: 0 <= i < j < |rs| ==> rs[i].end <= rs[j].start || rs[j].end <= rs[i].end)
  {
    if Laminar(rs) {
      forall i, j | 0 <= i < j < |rs|
        ensures rs[i].start <= rs[j].start && (rs[i].end <= rs[j].start || rs[j].end <= rs[i].end)
      {
        assert AfterOrInside(rs[i], rs[j]);
      }
    }
  }

  // ----- depth -----

  /** Contexts entered and not left again in the first `n` steps of a run. */
  ghost function NetContexts(s: Subject, run: seq<Frame>, n: nat): int
    requires n < |run| && forall i :: 0 <= i < n ==> Decodes(s.code, run[i].pc)
  {
    if n == 0 then 0 else
    var op := At(s.code, run[n - 1].pc).opcode;
    NetContexts(s, run, n - 1) + if op == 0x64 || op == 0xB2 then 1 else if op == 0x65 then -1 else 0
  }

  /** The depth of a run is the contexts its instructions entered, less those they left. */
  lemma {:induction false} DepthCounts(s: Subject, run: seq<Frame>, n: nat)
    requires IsRun(s, run) && n < |run|
    ensures forall i :: 0 <= i < n ==> Decodes(s.code, run[i].pc)
    ensures run[n].depth == NetContexts(s, run, n)
    decreases n
  {
    if n > 0 {
      DepthCounts(s, run, n - 1);
      assert NormalStep(s, run[n - 1], run[n]);
    }
  }

  // ----- bounded time between safe points -----

  /** Instructions from `p` to the end of the code. */
  ghost function InstructionsFrom(code: Listing, p: int): nat
    decreases |code| - p
  {
    if Decodes(code, p) && p < Next(code, p) then 1 + InstructionsFrom(code, Next(code, p)) else 0
  }

  lemma {:induction false} LaterHasFewer(code: Listing, p: int, q: int)
    requires Shaped(code) && Boundary(code, p) && Follows(code, 0, q) && p < q
    ensures InstructionsFrom(code, q) < InstructionsFrom(code, p)
    decreases q - p
  {
    NothingBetween(code, p, q);
    var next := Next(code, p);
    if next < q {
      FollowsLinear(code, 0, p, q);
      FollowsExtends(code, 0, p);
      LaterHasFewer(code, next, q);
    }
  }

  /** A step to a place that is not a safe point goes forward. */
  lemma StepGoesForward(s: Subject, e: seq<int>, m: Frame, m': Frame)
    requires Accepts(s) && Settled(s, e) && Safe(s, e, m) && NormalStep(s, m, m') && !s.IsSafePoint(m'.pc)
    ensures m.pc < m'.pc && InstructionsFrom(s.code, m'.pc) < InstructionsFrom(s.code, m.pc)
  {
    NormalStepSafe(s, e, m, m');
    assert SettledAt(s, e, m.pc);
    LaterHasFewer(s.code, m.pc, m'.pc);
  }

  lemma AtMostTheWholeCode(s: Subject, p: int)
    requires CodeOk(s) && Boundary(s.code, p)
    ensures InstructionsFrom(s.code, p) <= InstructionsFrom(s.code, 0)
  {
    FollowsLinear(s.code, 0, 0, |s.code|);
    if 0 < p { LaterHasFewer(s.code, 0, p); }
  }

  /** Step `k` of a run goes forward, leaving fewer instructions ahead. */
  ghost predicate Forward(code: Listing, run: seq<Frame>, k: int)
    requires 0 < k < |run|
  {
    run[k - 1].pc < run[k].pc && InstructionsFrom(code, run[k].pc) < InstructionsFrom(code, run[k - 1].pc)
  }

  lemma RunGoesForward(s: Subject, e: seq<int>, run: seq<Frame>, k: int)
    requires Accepts(s) && Settled(s, e) && IsRun(s, run) && 0 < k < |run| && !s.IsSafePoint(run[k].pc)
    ensures Forward(s.code, run, k)
  {
    AdmittedRunsAreSafe(s, e, run, k - 1);
    StepGoesForward(s, e, run[k - 1], run[k]);
  }

  lemma {:induction false} ForwardIsBounded(code: Listing, run: seq<Frame>, first: int, last: int)
    requires 0 <= first <= last < |run| && forall k :: first < k <= last ==> Forward(code, run, k)
    ensures last + InstructionsFrom(code, run[last].pc) <= first + InstructionsFrom(code, run[first].pc)
    decreases last
  {
    if first < last {
      assert Forward(code, run, last);
      ForwardIsBounded(code, run, first, last - 1);
    }
  }

  /** Between safe points the program counter only grows, so a stretch without
      one is shorter than the number of instructions still ahead of its start:
      every cycle of an admitted function passes through a safe point. */
  lemma BoundedBetweenSafePoints(s: Subject, e: seq<int>, run: seq<Frame>, first: int, last: int)
    requires Accepts(s) && Settled(s, e) && IsRun(s, run) && 0 <= first <= last < |run|
    requires forall k :: first < k <= last ==> !s.IsSafePoint(run[k].pc)
    ensures forall k :: first < k <= last ==> Forward(s.code, run, k)
    ensures last - first < InstructionsFrom(s.code, run[first].pc) <= InstructionsFrom(s.code, 0)
  {
    forall k | first < k <= last ensures Forward(s.code, run, k) { RunGoesForward(s, e, run, k); }
    ForwardIsBounded(s.code, run, first, last);
    AdmittedRunsAreSafe(s, e, run, first);
    AdmittedRunsAreSafe(s, e, run, last);
    AtMostTheWholeCode(s, run[first].pc);
  }

  // ----- exceptions -----

  /** Among the regions that cover a position, a later one lies inside every earlier one. */
  lemma InnermostIsLast(rs: seq<Region>, i: int, k: int, position: int)
    requires Laminar(rs) && Catches(rs, k, position) && 0 <= i < |rs| && Covers(rs[i], position)
    ensures i <= k && rs[i].start <= rs[k].start && rs[k].end <= rs[i].end
  {
    if i < k { assert AfterOrInside(rs[i], rs[k]); }
  }

  /** The machine's own search: the first covering region, replaced by each later
      one that lies inside it. */
  method HandlerFor(rs: seq<Region>, position: int) returns (found: Option<Region>)
    requires Laminar(rs)
    ensures found.None? <==> forall j :: 0 <= j < |rs| ==> !Covers(rs[j], position)
    ensures found.Some? ==> exists k :: Catches(rs, k, position) && found.value == rs[k]
  {
    found := None;
    ghost var at := -1;
    var index := 0;
    while index < |rs|
      invariant 0 <= index <= |rs|
      invariant found.None? ==> forall j :: 0 <= j < index ==> !Covers(rs[j], position)
      invariant found.Some? ==> 0 <= at < index && found.value == rs[at] && Covers(rs[at], position)
      invariant found.Some? ==> forall j :: at < j < index ==> !Covers(rs[j], position)
    {
      var region := rs[index];
      if region.start <= position < region.end {
        var better := found.None? || (region.start >= found.value.start && region.end <= found.value.end);
        assert found.Some? ==> AfterOrInside(rs[at], rs[index]);
        if better { found, at := Some(region), index; }
      }
      index := index + 1;
    }
    assert found.Some? ==> Catches(rs, at, position);
  }

  /** What the verifier leaves to the compiler: a throw's handler lies in the code,
      and the code a region protects never drops below the depth it started at. */
  ghost predicate Guarded(s: Subject, e: seq<int>)
    requires s.RegionsPresent() && |e| == |s.code|
  {
    forall p, k :: Boundary(s.code, p) && Catches(s.Regions(), k, ThrowPosition(s, p)) ==>
      s.Regions()[k].handler < |s.code| && s.Regions()[k].contextDepth <= e[p]
  }

  lemma ThrowStepSafe(s: Subject, e: seq<int>, m: Frame, m': Frame)
    requires Accepts(s) && Settled(s, e) && Safe(s, e, m) && ThrowStep(s, m, m')
    requires forall k :: Catches(s.Regions(), k, ThrowPosition(s, m.pc)) ==>
               s.Regions()[k].handler < |s.code| && s.Regions()[k].contextDepth <= e[m.pc]
    ensures Safe(s, e, m')
  {
    var k :| Catches(s.Regions(), k, ThrowPosition(s, m.pc))
             && m' == Frame(s.Regions()[k].handler, Min(m.depth, s.Regions()[k].contextDepth));
    var r := s.Regions()[k];
    assert RegionShapeOk(s, r);
    assert SettledAt(s, e, r.start);
    SafeAtRecordedDepth(s, e, r.handler);
  }

  /** With guarded regions, throwing runs are as safe as normal ones. */
  lemma {:induction false} GuardedThrowingRunsAreSafe(s: Subject, e: seq<int>, run: seq<Frame>, n: int)
    requires Accepts(s) && Settled(s, e) && Guarded(s, e) && IsThrowingRun(s, run) && 0 <= n < |run|
    ensures Safe(s, e, run[n])
  {
    if n == 0 {
      StartsSafe(s, e);
    } else {
      GuardedThrowingRunsAreSafe(s, e, run, n - 1);
      if NormalStep(s, run[n - 1], run[n]) {
        NormalStepSafe(s, e, run[n - 1], run[n]);
      } else {
        ThrowStepSafe(s, e, run[n - 1], run[n]);
      }
    }
  }

  // ----- where throwing runs lead -----

  /** Control can pass from `q` to `p`: by falling through, by a branch, or by a
      throw that a region with its handler at `p` catches. */
  ghost predicate Passes(s: Subject, q: int, p: int) {
    && Shaped(s.code) && s.RegionsPresent() && Decodes(s.code, q)
    && var op := At(s.code, q).opcode;
    && (|| (op != RETURN && op != THROW && IsBranch(op) && p == Target(s.code, q))
        || (!IsTerminator(op) && p == Next(s.code, q))
        || exists k :: Catches(s.Regions(), k, ThrowPosition(s, q)) && s.Regions()[k].handler == p)
  }

  ghost predicate IsTrail(s: Subject, trail: seq<int>) {
    trail != [] && trail[0] == 0 && forall i :: 0 < i < |trail| ==> Passes(s, trail[i - 1], trail[i])
  }

  ghost predicate TrailTo(s: Subject, trail: seq<int>, p: int) { IsTrail(s, trail) && trail[|trail| - 1] == p }

  /** Some way through the code and its exception table leads to `p`. */
  ghost predicate Live(s: Subject, p: int) { exists trail :: TrailTo(s, trail, p) }

  ghost predicate AllThrowingRunsSafe(s: Subject, e: seq<int>) {
    forall run, n :: IsThrowingRun(s, run) && 0 <= n < |run| ==> Safe(s, e, run[n])
  }

  ghost predicate RunReaches(s: Subject, run: seq<Frame>, p: int) {
    IsThrowingRun(s, run) && run[|run| - 1].pc == p
  }

  lemma RunExtends(s: Subject, run: seq<Frame>, m: Frame)
    requires IsThrowingRun(s, run)
    requires NormalStep(s, run[|run| - 1], m) || ThrowStep(s, run[|run| - 1], m)
    ensures RunReaches(s, run + [m], m.pc)
  {}

  lemma LivesOn(s: Subject, q: int, p: int)
    requires Live(s, q) && Passes(s, q, p)
    ensures Live(s, p)
  {
    var trail :| TrailTo(s, trail, q);
    assert TrailTo(s, trail + [p], p);
  }

  /** The depth never decides where a step may go. */
  lemma {:induction false} TrailRuns(s: Subject, trail: seq<int>, n: int) returns (run: seq<Frame>)
    requires IsTrail(s, trail) && 0 <= n < |trail|
    ensures RunReaches(s, run, trail[n])
    decreases n
  {
    if n == 0 {
      run := [Frame(0, 0)];
    } else {
      run := TrailRuns(s, trail, n - 1);
      var q, p, m := trail[n - 1], trail[n], run[|run| - 1];
      assert Passes(s, q, p);
      var op := At(s.code, q).opcode;
      var m' := Frame(p, After(op, m.depth));
      if !NormalStep(s, m, m') {
        var k :| Catches(s.Regions(), k, ThrowPosition(s, q)) && s.Regions()[k].handler == p;
        m' := Frame(p, Min(m.depth, s.Regions()[k].contextDepth));
        assert ThrowStep(s, m, m');
      }
      RunExtends(s, run, m');
      run := run + [m'];
    }
  }

  lemma {:induction false} RunTrails(s: Subject, run: seq<Frame>, n: int)
    requires IsThrowingRun(s, run) && 0 <= n < |run| && s.RegionsPresent() && Shaped(s.code)
    ensures Live(s, run[n].pc)
    decreases n
  {
    if n == 0 {
      assert TrailTo(s, [0], 0);
    } else {
      RunTrails(s, run, n - 1);
      StepPasses(s, run[n - 1], run[n]);
      LivesOn(s, run[n - 1].pc, run[n].pc);
    }
  }

  lemma StepPasses(s: Subject, m: Frame, m': Frame)
    requires s.RegionsPresent() && Shaped(s.code) && (NormalStep(s, m, m') || ThrowStep(s, m, m'))
    ensures Passes(s, m.pc, m'.pc)
  {}

  lemma StartLives(s: Subject)
    ensures Live(s, 0)
  {
    assert TrailTo(s, [0], 0);
  }

  lemma CaughtPasses(s: Subject, q: int, i: int)
    requires Shaped(s.code) && s.RegionsPresent() && Decodes(s.code, q) && Catches(s.Regions(), i, ThrowPosition(s, q))
    ensures Passes(s, q, s.Regions()[i].handler)
  {}

  /** The live places are exactly those some run reaches. */
  lemma LiveIsRunning(s: Subject, p: int)
    requires s.RegionsPresent() && Shaped(s.code)
    ensures Live(s, p) <==> exists run :: RunReaches(s, run, p)
  {
    if Live(s, p) {
      var trail :| TrailTo(s, trail, p);
      var run := TrailRuns(s, trail, |trail| - 1);
    }
    if exists run :: RunReaches(s, run, p) {
      var run :| RunReaches(s, run, p);
      RunTrails(s, run, |run| - 1);
    }
  }

  // ----- the guard is exactly what is missing -----

  /** The guard where control can be. */
  ghost predicate LiveGuarded(s: Subject, e: seq<int>)
    requires s.RegionsPresent() && |e| == |s.code|
  {
    forall p, k :: Boundary(s.code, p) && Live(s, p) && Catches(s.Regions(), k, ThrowPosition(s, p)) ==>
      s.Regions()[k].handler < |s.code| && s.Regions()[k].contextDepth <= e[p]
  }

  lemma {:induction false} LiveGuardedRunsAreSafe(s: Subject, e: seq<int>, run: seq<Frame>, n: int)
    requires Accepts(s) && Settled(s, e) && LiveGuarded(s, e) && IsThrowingRun(s, run) && 0 <= n < |run|
    ensures Safe(s, e, run[n])
  {
    hide Live, Accepts, Settled, NormalStep, ThrowStep, LiveGuarded, Safe;
    if n == 0 {
      StartsSafe(s, e);
    } else {
      LiveGuardedRunsAreSafe(s, e, run, n - 1);
      RunLives(s, run, n - 1);
      if NormalStep(s, run[n - 1], run[n]) {
        NormalStepSafe(s, e, run[n - 1], run[n]);
      } else {
        GuardHere(s, e, run[n - 1]);
        ThrowStepSafe(s, e, run[n - 1], run[n]);
      }
    }
  }

  /** The places of a run are live. */
  lemma RunLives(s: Subject, run: seq<Frame>, n: int)
    requires Accepts(s) && IsThrowingRun(s, run) && 0 <= n < |run|
    ensures Live(s, run[n].pc)
  {
    hide NormalStep, ThrowStep, Live;
    RunTrails(s, run, n);
  }

  /** The guard at a live instruction. */
  lemma GuardHere(s: Subject, e: seq<int>, m: Frame)
    requires Accepts(s) && Settled(s, e) && LiveGuarded(s, e) && Safe(s, e, m) && Live(s, m.pc)
    ensures forall k :: Catches(s.Regions(), k, ThrowPosition(s, m.pc)) ==>
              s.Regions()[k].handler < |s.code| && s.Regions()[k].contextDepth <= e[m.pc]
  {
    hide Live, Catches, CodeOk, SafePointsOk, NestingOk, Reached, SettledAt;
  }

  /** A single live instruction without its guard gives an unsafe run. */
  lemma UnguardedEscapes(s: Subject, e: seq<int>, p: int, k: int)
    requires Accepts(s) && Settled(s, e) && Live(s, p)
    requires AllThrowingRunsSafe(s, e) && Boundary(s.code, p) && Catches(s.Regions(), k, ThrowPosition(s, p))
    ensures s.Regions()[k].handler < |s.code| && s.Regions()[k].contextDepth <= e[p]
  {
    hide Accepts, Settled, Live, Safe, NormalStep, ThrowStep;
    AdmittedShape(s);
    LiveIsRunning(s, p);
    var run :| RunReaches(s, run, p);
    var m, r := run[|run| - 1], s.Regions()[k];
    assert Safe(s, e, m);
    var m' := Frame(r.handler, Min(m.depth, r.contextDepth));
    ThrowsThere(s, m, k);
    RunExtends(s, run, m');
    assert Safe(s, e, (run + [m'])[|run|]);
    CaughtDepth(s, e, p, k, m, m');
  }

  lemma AdmittedShape(s: Subject)
    requires Accepts(s)
    ensures Shaped(s.code) && s.RegionsPresent()
  {}

  lemma ThrowsThere(s: Subject, m: Frame, k: int)
    requires Shaped(s.code) && s.RegionsPresent() && Boundary(s.code, m.pc) && Catches(s.Regions(), k, ThrowPosition(s, m.pc))
    ensures ThrowStep(s, m, Frame(s.Regions()[k].handler, Min(m.depth, s.Regions()[k].contextDepth)))
  {}

  /** Safe before and after a throw, the depth was not below the region's. */
  lemma CaughtDepth(s: Subject, e: seq<int>, p: int, k: int, m: Frame, m': Frame)
    requires Accepts(s) && Settled(s, e) && Safe(s, e, m) && Safe(s, e, m') && m.pc == p
    requires Boundary(s.code, p) && Catches(s.Regions(), k, ThrowPosition(s, p))
    requires m' == Frame(s.Regions()[k].handler, Min(m.depth, s.Regions()[k].contextDepth))
    ensures s.Regions()[k].handler < |s.code| && s.Regions()[k].contextDepth <= e[p]
  {
    hide CodeOk, SafePointsOk, NestingOk, Reached;
    var r := s.Regions()[k];
    assert RegionShapeOk(s, r);
    assert SettledAt(s, e, r.start);
  }

  /** The throwing runs of an admitted function are safe exactly when every live
      instruction is guarded: no other hypothesis is needed. */
  lemma ThrowingRunsSafeExactlyWhenGuarded(s: Subject, e: seq<int>)
    requires Accepts(s) && Settled(s, e)
    ensures AllThrowingRunsSafe(s, e) <==> LiveGuarded(s, e)
  {
    if LiveGuarded(s, e) {
      forall run, n | IsThrowingRun(s, run) && 0 <= n < |run| ensures Safe(s, e, run[n]) {
        LiveGuardedRunsAreSafe(s, e, run, n);
      }
    }
    if AllThrowingRunsSafe(s, e) {
      forall p, k | Boundary(s.code, p) && Live(s, p) && Catches(s.Regions(), k, ThrowPosition(s, p))
        ensures s.Regions()[k].handler < |s.code| && s.Regions()[k].contextDepth <= e[p]
      {
        UnguardedEscapes(s, e, p, k);
      }
    }
  }

  // ----- dead code -----

  ghost predicate NoDeadCode(s: Subject) { forall p :: Boundary(s.code, p) ==> Live(s, p) }

  /** Every handler that lies in the code after its region's start is live. */
  ghost predicate HandlersLive(s: Subject)
    requires s.RegionsPresent()
  {
    forall i :: 0 <= i < |s.Regions()| && s.Regions()[i].start < s.Regions()[i].handler < |s.code| ==>
      Live(s, s.Regions()[i].handler)
  }

  /** Falling through and branching pass control on. */
  lemma FlowPasses(s: Subject, q: int)
    requires Shaped(s.code) && s.RegionsPresent() && Decodes(s.code, q)
    ensures var op := At(s.code, q).opcode;
            && (!IsTerminator(op) ==> Passes(s, q, Next(s.code, q)))
            && (IsBranch(op) ==> Passes(s, q, Target(s.code, q)))
  {}

  lemma {:induction false} LiveWithHandlers(s: Subject, p: int)
    requires Accepts(s) && HandlersLive(s) && Boundary(s.code, p)
    ensures Live(s, p)
    decreases p
  {
    hide Live, Passes, Follows;
    StartLives(s);
    assert Reached(s, p);
    if p == 0 {
    } else if FallsInto(s.code, p) {
      var q :| Boundary(s.code, q) && Next(s.code, q) == p && !IsTerminator(At(s.code, q).opcode);
      LiveWithHandlers(s, q);
      FlowPasses(s, q);
      LivesOn(s, q, p);
    } else {
      var q :| q < p && Enters(s, q, p);
      if IsBranch(At(s.code, q).opcode) && Target(s.code, q) == p {
        LiveWithHandlers(s, q);
        FlowPasses(s, q);
        LivesOn(s, q, p);
      }
    }
  }

  /** Admission leaves dead code only behind handlers no throw finds: an admitted
      function has none exactly when its forward handlers are live. */
  lemma NoDeadCodeExactlyWhenHandlersLive(s: Subject)
    requires Accepts(s)
    ensures NoDeadCode(s) <==> HandlersLive(s)
  {
    if HandlersLive(s) {
      forall p | Boundary(s.code, p) ensures Live(s, p) { LiveWithHandlers(s, p); }
    }
    if NoDeadCode(s) {
      forall i | 0 <= i < |s.Regions()| && s.Regions()[i].start < s.Regions()[i].handler < |s.code|
        ensures Live(s, s.Regions()[i].handler)
      {
        assert RegionShapeOk(s, s.Regions()[i]);
      }
    }
  }

  /** An instruction before the handler throws to region `i`. */
  ghost predicate CaughtBefore(s: Subject, i: int)
    requires s.RegionsPresent() && 0 <= i < |s.Regions()|
  {
    exists q :: Boundary(s.code, q) && q < s.Regions()[i].handler && Catches(s.Regions(), i, ThrowPosition(s, q))
  }

  /** A check of the table alone: each forward handler is some earlier instruction's. */
  ghost predicate HandlersUsed(s: Subject)
    requires s.RegionsPresent()
  {
    forall i :: 0 <= i < |s.Regions()| && s.Regions()[i].start < s.Regions()[i].handler < |s.code| ==> CaughtBefore(s, i)
  }

  /** When every forward handler is used, some run reaches every instruction. */
  lemma {:induction false} EveryInstructionRuns(s: Subject, p: int)
    requires Accepts(s) && HandlersUsed(s) && Boundary(s.code, p)
    ensures Live(s, p)
    decreases p
  {
    hide Live, Passes, Follows, Settled;
    StartLives(s);
    assert Reached(s, p);
    if p == 0 {
    } else if FallsInto(s.code, p) {
      var q :| Boundary(s.code, q) && Next(s.code, q) == p && !IsTerminator(At(s.code, q).opcode);
      EveryInstructionRuns(s, q);
      FlowPasses(s, q);
      LivesOn(s, q, p);
    } else {
      var q :| q < p && Enters(s, q, p);
      if !(IsBranch(At(s.code, q).opcode) && Target(s.code, q) == p) {
        var i :| 0 <= i < |s.Regions()| && s.Regions()[i].start == q && s.Regions()[i].handler == p;
        assert CaughtBefore(s, i);
        q :| Boundary(s.code, q) && q < p && Catches(s.Regions(), i, ThrowPosition(s, q));
        CaughtPasses(s, q, i);
      } else {
        FlowPasses(s, q);
      }
      EveryInstructionRuns(s, q);
      LivesOn(s, q, p);
    }
  }

  /** Then the guard over all the code is the exact condition. */
  lemma UsedHandlersNeedTheWholeGuard(s: Subject, e: seq<int>)
    requires Accepts(s) && Settled(s, e) && HandlersUsed(s)
    ensures AllThrowingRunsSafe(s, e) <==> Guarded(s, e)
  {
    ThrowingRunsSafeExactlyWhenGuarded(s, e);
    forall p | Boundary(s.code, p) ensures Live(s, p) { EveryInstructionRuns(s, p); }
  }

  /** Two regions over one instruction: the first one's handler is admitted, though
      every throw goes to the second's and no run reaches it. */
  lemma DeadHandlerIsAdmitted() returns (s: Subject)
    ensures s.code == Disassemble([0x00, RETURN, RETURN, RETURN])
    ensures Accepts(s) && Boundary(s.code, 2) && !Live(s, 2)
  {
    s := Subject(Unit(0, [OUTER, INNER], []), FunctionRecord(1, 0, 0, 2, 0, 0), Disassemble([0x00, RETURN, RETURN, RETURN]), []);
    SingleBytes([0x00, RETURN, RETURN, RETURN]);
    hide Disassemble, Decode, ListingAt;
    assert s.RegionAt(0) == Some(OUTER) && s.RegionAt(1) == Some(INNER);
    assert s.Regions() == [OUTER, INNER];
    DeadHandlerAdmitted(s);
    if Live(s, 2) {
      var trail :| TrailTo(s, trail, 2);
      NeverTwo(s, trail, |trail| - 1);
    }
  }

  const OUTER := Region(0, 1, 2, 0, 0)
  const INNER := Region(0, 1, 3, 0, 0)

  function Single(op: byte): Option<Instruction> { Some(Instruction(op, [], Narrow, [], [], 1)) }

  /** The two regions over a no-op, and three returns. */
  ghost predicate SharedStart(s: Subject) {
    && s.RegionsPresent() && s.Regions() == [OUTER, INNER] && Shaped(s.code)
    && s.code == [Single(0x00), Single(RETURN), Single(RETURN), Single(RETURN)]
  }

  lemma SingleBytes(bytes: seq<byte>)
    requires bytes == [0x00, RETURN, RETURN, RETURN]
    ensures Disassemble(bytes) == [Single(0x00), Single(RETURN), Single(RETURN), Single(RETURN)]
  {
    NoOperands();
    hide Signature, Decode;
    forall p: nat | p < 4 ensures Disassemble(bytes)[p] == Single(bytes[p]) {
      assert bytes[p] == 0x00 || bytes[p] == RETURN;
      SingleByte(bytes, p);
    }
  }

  lemma NoOperands()
    ensures Signature(0x00) == [] && Signature(RETURN) == [] && Signature(CALL_SUPER) == [Register, Count]
  {}

  lemma SingleByte(bytes: seq<byte>, p: nat)
    requires p < |bytes| && Assigned(bytes[p]) && Signature(bytes[p]) == []
    ensures Decode(bytes, p) == Ok(Instruction(bytes[p], [], Narrow, [], [], 1))
  {
    hide Signature;
    assert WidthOf(bytes[p]) == Narrow;
    assert OperandsAt(bytes, p + 1, Narrow, 0) == [] && SignExtendAll([], Narrow) == [];
  }

  lemma DeadHandlerAdmitted(s: Subject)
    requires SharedStart(s) && s.shape == FunctionRecord(1, 0, 0, 2, 0, 0) && s.refused == []
    ensures Accepts(s) && Boundary(s.code, 2)
  {
    FourInstructions(s.code);
    SharedCode(s);
    SharedRegions(s);
    SharedSettled(s);
    SharedReached(s);
    hide CodeOk, RegionsOk, Settled, Reached, Follows;
  }

  lemma SharedCode(s: Subject)
    requires SharedStart(s) && s.refused == [] && Follows(s.code, 0, 4) && forall p :: Boundary(s.code, p) <==> 0 <= p < 4
    ensures CodeOk(s)
  {
    hide Follows, Boundary;
  }

  lemma SharedRegions(s: Subject)
    requires SharedStart(s) && s.shape.registerCount == 1 && forall p :: Boundary(s.code, p) <==> 0 <= p < 4
    ensures RegionsOk(s)
  {
    hide Follows, Boundary;
    var rs := s.Regions();
    assert OpenEnds(rs, 0, 0) == [] && OpenEnds(rs, 1, 0) == [1];
    assert Shallow(rs, 0) && Shallow(rs, 1);
  }

  lemma SharedSettled(s: Subject)
    requires SharedStart(s) && s.shape.contextDepth == 0 && forall p :: Boundary(s.code, p) <==> 0 <= p < 4
    ensures Settled(s, [0, 0, 0, 0])
  {
    hide Follows, Boundary;
  }

  lemma SharedReached(s: Subject)
    requires SharedStart(s) && forall p :: Boundary(s.code, p) <==> 0 <= p < 4
    ensures forall p :: Boundary(s.code, p) ==> Reached(s, p)
  {
    hide Follows, Boundary;
    assert Boundary(s.code, 0) && Boundary(s.code, 1);
    assert s.Regions()[0] == OUTER && s.Regions()[1] == INNER;
    assert FallsInto(s.code, 1) && Enters(s, 0, 2) && Enters(s, 0, 3);
    forall p | Boundary(s.code, p) ensures Reached(s, p) {
      assert p == 0 || p == 1 || p == 2 || p == 3;
    }
  }

  lemma FourInstructions(code: Listing)
    requires Shaped(code) && |code| == 4 && forall p :: 0 <= p < 4 ==> code[p].Some? && code[p].value.length == 1
    ensures Follows(code, 0, 4) && forall p :: Boundary(code, p) <==> 0 <= p < 4
  {
    hide Follows, Shaped;
    FollowsFromStart(code);
    OneOn(code, 0);
    OneOn(code, 1);
    OneOn(code, 2);
    OneOn(code, 3);
    forall p ensures Boundary(code, p) <==> 0 <= p < 4 {
      assert p == 0 || p == 1 || p == 2 || p == 3 || !(0 <= p < 4);
    }
  }

  lemma OneOn(code: Listing, p: int)
    requires Shaped(code) && Decodes(code, p) && At(code, p).length == 1 && Follows(code, 0, p)
    ensures Follows(code, 0, p + 1)
  {
    hide Follows;
    FollowsExtends(code, 0, p);
  }

  lemma FollowsFromStart(code: Listing)
    ensures Follows(code, 0, 0)
  {}

  lemma {:induction false} NeverTwo(s: Subject, trail: seq<int>, n: int)
    requires SharedStart(s) && IsTrail(s, trail) && 0 <= n < |trail|
    ensures trail[n] != 2
    decreases n
  {
    if n > 0 {
      NeverTwo(s, trail, n - 1);
      assert Passes(s, trail[n - 1], trail[n]);
      assert Covers(s.Regions()[1], 0);
    }
  }

  /** The guard does not come for free: one `Throw` under a region whose handler
      lies past the code is admitted, and its throw leaves the code. */
  lemma HandlerOutsideIsAdmitted() returns (s: Subject, run: seq<Frame>)
    ensures s.code == Disassemble([THROW])
    ensures Accepts(s) && IsThrowingRun(s, run)
    ensures |run| == 2 && !Boundary(s.code, run[1].pc)
  {
    s := Subject(Unit(0, [FAR_REGION], []), FunctionRecord(1, 0, 0, 1, 0, 0), Disassemble([THROW]), []);
    ThrowBytes([THROW]);
    hide Disassemble, Decode;
    assert s.RegionAt(0) == Some(FAR_REGION);
    assert s.Regions() == [FAR_REGION];
    OneInstruction(s.code);
    OneThrowAdmitted(s);
    run := [Frame(0, 0), Frame(9, 0)];
    OneThrowLeaves(s, run);
  }

  const FAR_REGION := Region(0, 1, 9, 0, 0)

  /** A throw under a region whose handler is far away. */
  ghost predicate OneThrow(s: Subject) {
    s.RegionsPresent() && s.Regions() == [FAR_REGION] && Shaped(s.code) && s.code == [Single(THROW)]
  }

  lemma ThrowBytes(bytes: seq<byte>)
    requires bytes == [THROW]
    ensures Disassemble(bytes) == [Single(THROW)]
  {
    assert Signature(THROW) == [];
    hide Signature, Decode;
    SingleByte(bytes, 0);
  }

  lemma OneInstruction(code: Listing)
    requires Shaped(code) && |code| == 1 && code[0].Some? && code[0].value.length == 1
    ensures Follows(code, 0, 1) && forall p :: Boundary(code, p) <==> p == 0
  {
    hide Follows;
    FollowsFromStart(code);
    FollowsExtends(code, 0, 0);
  }

  lemma OneThrowAdmitted(s: Subject)
    requires OneThrow(s) && s.shape == FunctionRecord(1, 0, 0, 1, 0, 0) && s.refused == []
    requires Follows(s.code, 0, 1) && forall p :: Boundary(s.code, p) <==> p == 0
    ensures Accepts(s)
  {
    hide Follows, Boundary;
    assert OpenEnds(s.Regions(), 0, 0) == [];
    assert RegionShapeOk(s, FAR_REGION);
    assert Settled(s, [0]);
  }

  lemma OneThrowLeaves(s: Subject, run: seq<Frame>)
    requires OneThrow(s) && run == [Frame(0, 0), Frame(9, 0)]
    ensures IsThrowingRun(s, run)
  {
    assert Catches(s.Regions(), 0, 0);
    assert ThrowStep(s, run[0], run[1]);
  }

  // ----- argument runs -----

  /** A call that passes a run of registers: the four the verifier knows, and `CallSuper`. */
  predicate PassesRun(op: byte) { CountsRegisterRun(op) || op == CALL_SUPER }

  /** One past the last register of a call's argument run. */
  function RunEnd(ins: Instruction): int
    requires PassesRun(ins.opcode) && ins.kinds == Signature(ins.opcode) && |ins.operands| == |ins.kinds|
  {
    var first: int, count: int := ins.operands[|ins.operands| - 2], ins.operands[|ins.operands| - 1];
    first + count
  }

  /** An admitted instruction of opcode `op` whose argument run leaves the frame. */
  ghost predicate RunsOut(s: Subject, op: byte, ins: Instruction) {
    && PassesRun(op) && ins.opcode == op && ins.kinds == Signature(op) && |ins.operands| == |ins.kinds|
    && InstructionOk(s, ins) && RunEnd(ins) > s.shape.registerCount
  }

  /** For each call that passes arguments: admission keeps the run in the frame exactly
      when there are no registers at all, or the call is one of the four and the frame
      is not the one of 2^32-1 registers, which the saturating sum cannot judge. */
  lemma ArgumentRunsInFrame(s: Subject, op: byte)
    requires PassesRun(op) && op !in s.refused
    ensures (forall ins :: !RunsOut(s, op, ins)) <==>
              s.shape.registerCount == 0 || (op in {CALL, CALL_PROPERTY, CONSTRUCT, TAIL_CALL} && s.shape.registerCount != U32_MAX)
  {
    RunSignatures(op);
    var frame := s.shape.registerCount;
    if frame == 0 || (CountsRegisterRun(op) && frame != U32_MAX) {
      forall ins ensures !RunsOut(s, op, ins) { RunStaysIn(s, op, ins); }
    } else if CountsRegisterRun(op) {
      var ins := Instruction(op, Signature(op), ExtraWide, [0, 1, U32_MAX], [0, 1, -1], 14);
      assert RunsOut(s, op, ins);
    } else {
      var ins := Instruction(op, Signature(op), ExtraWide, [0, U32_MAX], [0, -1], 10);
      if frame == U32_MAX {
        ins := Instruction(op, Signature(op), ExtraWide, [1, U32_MAX], [1, -1], 10);
      }
      assert RunsOut(s, op, ins);
    }
  }

  lemma RunStaysIn(s: Subject, op: byte, ins: Instruction)
    requires PassesRun(op) && (s.shape.registerCount == 0 || (CountsRegisterRun(op) && s.shape.registerCount != U32_MAX))
    ensures !RunsOut(s, op, ins)
  {
    if ins.opcode == op && ins.kinds == Signature(op) && |ins.operands| == |ins.kinds| && InstructionOk(s, ins) {
      assert OperandOk(s, ins, 0);
      if CountsRegisterRun(op) { assert OperandOk(s, ins, 2); }
    }
  }

  /** `CallSuper r0, 5` in a frame of one register, followed by a return, is admitted. */
  lemma SuperCallRunIsUnchecked() returns (s: Subject)
    ensures s.code == Disassemble([CALL_SUPER, 0, 5, RETURN]) && s.shape.registerCount == 1
    ensures Accepts(s) && Boundary(s.code, 0) && RunsOut(s, CALL_SUPER, At(s.code, 0))
  {
    hide Disassemble, Decode, ListingAt, Signature, Accepts, Follows, Settled;
    var bytes := [CALL_SUPER, 0, 5, RETURN];
    s := Subject(Unit(0, [], []), FunctionRecord(1, 0, 0, 0, 0, 0), Disassemble(bytes), []);
    SuperCallDecodes(bytes);
    SuperCallSweep(s.code);
    SuperCallAdmitted(s);
    NoOperands();
  }

  /** The listing of a super call and a return. */
  ghost predicate SuperCall(code: Listing) {
    && Shaped(code) && |code| == 4
    && code[0] == Some(Instruction(CALL_SUPER, [Register, Count], Narrow, [0, 5], [0, 5], 3))
    && code[3] == Some(Instruction(RETURN, [], Narrow, [], [], 1))
  }

  lemma SuperCallSweep(code: Listing)
    requires SuperCall(code)
    ensures Follows(code, 0, 4) && forall p :: Boundary(code, p) <==> p == 0 || p == 3
  {
    hide Follows;
    FollowsFromStart(code);
    FollowsExtends(code, 0, 0);
    FollowsExtends(code, 0, 3);
    forall p | Boundary(code, p) ensures p == 0 || p == 3 {
      if 0 < p { NothingBetween(code, 0, p); }
    }
  }

  lemma SuperCallAdmitted(s: Subject)
    requires SuperCall(s.code) && s == Subject(Unit(0, [], []), FunctionRecord(1, 0, 0, 0, 0, 0), s.code, [])
    requires Follows(s.code, 0, 4) && forall p :: Boundary(s.code, p) <==> p == 0 || p == 3
    ensures Accepts(s) && InstructionOk(s, At(s.code, 0))
  {
    hide Follows, Signature;
    assert s.Regions() == [];
    assert Boundary(s.code, 0) && Next(s.code, 0) == 3;
    assert FallsInto(s.code, 3);
    assert Settled(s, [0, 0, 0, 0]);
  }

  lemma SuperCallDecodes(bytes: seq<byte>)
    requires bytes == [CALL_SUPER, 0, 5, RETURN]
    ensures SuperCall(Disassemble(bytes))
  {
    hide OperandsAt, OperandAt, Signature, SignExtendAll, Decode;
    NoOperands();
    SuperOperands(bytes);
    SmallSigned([0, 5]);
    SingleByte(bytes, 3);
    TwoOperands(bytes, 0, [0, 5]);
  }

  lemma TwoOperands(bytes: seq<byte>, p: nat, values: seq<u32>)
    requires p + 3 <= |bytes| && bytes[p] == CALL_SUPER && Signature(CALL_SUPER) == [Register, Count]
    requires OperandsAt(bytes, p + 1, Narrow, 2) == values == SignExtendAll(values, Narrow)
    ensures Decode(bytes, p) == Ok(Instruction(CALL_SUPER, [Register, Count], Narrow, values, values, 3))
  {
    hide OperandsAt, OperandAt, Signature, SignExtendAll;
    assert WidthOf(CALL_SUPER) == Narrow;
  }

  lemma SuperOperands(bytes: seq<byte>)
    requires bytes == [CALL_SUPER, 0, 5, RETURN]
    ensures OperandsAt(bytes, 1, Narrow, 2) == [0, 5]
  {
    NarrowOperand(bytes, 1, 0);
    NarrowOperand(bytes, 1, 1);
    hide OperandAt;
    var first := OperandsAt(bytes, 1, Narrow, 1);
    assert OperandsAt(bytes, 1, Narrow, 0) == [];
    assert first == [0];
    assert OperandsAt(bytes, 1, Narrow, 2) == first + [5];
  }

  lemma NarrowOperand(bytes: seq<byte>, at: nat, i: nat)
    requires at + i + 1 <= |bytes|
    ensures OperandAt(bytes, at, Narrow, i) == bytes[at + i]
  {
    var slice := bytes[at + i..at + i + 1];
    assert slice == [bytes[at + i]] && slice[1..] == [];
    assert FromLittleEndian([]) == 0;
  }

  lemma SmallSigned(values: seq<u32>)
    requires values == [0, 5]
    ensures SignExtendAll(values, Narrow) == [0, 5]
  {
    assert SignExtendAll([], Narrow) == [];
    assert values[..1] == [0] && values[..1][..0] == [] && values[1..] == [5] && [5][1..] == [];
    assert SignExtend(0, Narrow) == 0 && SignExtend(5, Narrow) == 5;
  }
}
