/** The verifier as it runs: the sweeps over the per-byte state table. */
module VerifierSweeps {
  import opened Words
  import opened Bytecode
  import opened Verifier

  /** The state table after the first sweep: boundaries found, no depth known. */
  ghost predicate Marked(code: Listing, state: seq<int>) {
    && |state| == |code|
    && forall p :: 0 <= p < |code| ==> state[p] == if Boundary(code, p) then UNVISITED else NOT_START
  }

  method OperandsAdmitted(s: Subject, ins: Instruction) returns (ok: bool)
    requires |ins.operands| == |ins.kinds|
    requires CountsRegisterRun(ins.opcode) ==> |ins.kinds| == 3
    ensures ok <==> forall k :: 0 <= k < |ins.operands| ==> OperandOk(s, ins, k)
  {
    var operand := 0;
    while operand < |ins.kinds|
      invariant 0 <= operand <= |ins.kinds|
      invariant forall k :: 0 <= k < operand ==> OperandOk(s, ins, k)
    {
      var value := ins.operands[operand];
      var fault := match ins.kinds[operand]
        case Register => value >= s.shape.registerCount
        case Constant => value >= s.unit.constantCount
        case Count =>
          CountsRegisterRun(ins.opcode) && Min(ins.operands[1] + value, U32_MAX) > s.shape.registerCount
        case Depth => value > s.shape.contextDepth
        case Immediate => false
        case Jump => false;
      assert fault <==> !OperandOk(s, ins, operand);
      if fault { return false; }
      operand := operand + 1;
    }
    ok := true;
  }

  /** The first pass finds where instructions start and checks their operands. */
  method PassOne(s: Subject, state: array<int>) returns (ok: bool)
    requires Shaped(s.code) && state.Length == |s.code|
    modifies state
    ensures ok <==> CodeOk(s)
    ensures ok ==> Marked(s.code, state[..])
  {
    assert Follows(s.code, 0, 0);
    hide Follows, InstructionOk, IsTerminator;
    var clear := 0;
    while clear < state.Length
      invariant 0 <= clear <= state.Length
      invariant forall p :: 0 <= p < clear ==> state[p] == NOT_START
    {
      state[clear] := NOT_START;
      clear := clear + 1;
    }
    var offset, last: Option<byte> := 0, None;
    ghost var previous := 0;
    while offset < |s.code|
      invariant 0 <= offset <= |s.code| && Follows(s.code, 0, offset)
      invariant forall p :: 0 <= p < |s.code| ==>
                  state[p] == if p < offset && Boundary(s.code, p) then UNVISITED else NOT_START
      invariant forall p :: Boundary(s.code, p) && p < offset ==> InstructionOk(s, At(s.code, p))
      invariant last.None? <==> offset == 0
      invariant offset > 0 ==> Boundary(s.code, previous) && Next(s.code, previous) == offset
      invariant offset > 0 ==> last == Some(At(s.code, previous).opcode)
    {
      if s.code[offset].None? {
        StopsTheSweep(s.code, offset);
        return false;
      }
      assert Boundary(s.code, offset);
      var ins := s.code[offset].value;
      state[offset] := UNVISITED;
      if ins.opcode in s.refused { return false; }
      var fits := OperandsAdmitted(s, ins);
      if !fits { return false; }
      forall p | Boundary(s.code, p) && offset < p ensures Next(s.code, offset) <= p {
        NothingBetween(s.code, offset, p);
      }
      FollowsExtends(s.code, 0, offset);
      previous, last, offset := offset, Some(ins.opcode), offset + ins.length;
    }
    if s.code == [] { return false; }
    forall p | Boundary(s.code, p) && Next(s.code, p) == |s.code| ensures p == previous {
      if p < previous { NothingBetween(s.code, p, previous); }
      if previous < p { NothingBetween(s.code, previous, p); }
    }
    ok := IsTerminator(last.value);
  }

  lemma StopsTheSweep(code: Listing, p: int)
    requires 0 <= p < |code| && Follows(code, 0, p) && code[p].None?
    ensures !Follows(code, 0, |code|)
  {
    if Follows(code, 0, |code|) { FollowsLinear(code, 0, p, |code|); }
  }

  /** One comparison a point: greater than the last, and marked as a start. */
  method CheckSafePoints(s: Subject, state: array<int>) returns (ok: bool)
    requires Marked(s.code, state[..])
    ensures ok <==> SafePointsOk(s)
  {
    var previous: Option<u32> := None;
    var slot := 0;
    while slot < s.shape.safePointCount
      invariant 0 <= slot <= s.shape.safePointCount
      invariant previous == if slot == 0 then None else s.SafePoint(slot - 1)
      invariant forall i :: 0 <= i < slot ==> s.SafePoint(i).Some? && Boundary(s.code, s.SafePoint(i).value)
      invariant forall i, j :: 0 <= i < j < slot ==> s.SafePoint(i).value < s.SafePoint(j).value
    {
      var point := s.SafePoint(slot);
      if point.None? { return false; }
      if point.value >= |s.code| || state[point.value] == NOT_START {
        assert point.value < |s.code| ==> state[..][point.value] == NOT_START;
        return false;
      }
      assert state[..][point.value] != NOT_START;
      if previous.Some? && point.value <= previous.value {
        assert s.SafePoint(slot - 1).value >= s.SafePoint(slot).value;
        return false;
      }
      previous := point;
      slot := slot + 1;
    }
    ok := true;
  }

  method IsSafePointAt(s: Subject, target: int) returns (found: bool)
    ensures found <==> s.IsSafePoint(target)
  {
    var slot := 0;
    while slot < s.shape.safePointCount
      invariant 0 <= slot <= s.shape.safePointCount
      invariant forall i :: 0 <= i < slot ==> s.SafePoint(i) != Some(target)
    {
      if s.SafePoint(slot) == Some(target) { return true; }
      slot := slot + 1;
    }
    found := false;
  }

  // ----- exception regions -----

  /** Ends never grow towards the top of the stack of open regions. */
  ghost predicate Tapers(ends: seq<u32>) {
    forall i, j :: 0 <= i < j < |ends| ==> ends[j] <= ends[i]
  }

  /** Open ends belong to regions of the table. */
  lemma {:induction false} OpenEndsSound(rs: seq<Region>, n: nat, at: int)
    requires n <= |rs|
    ensures forall e :: e in OpenEnds(rs, n, at) ==> exists i :: 0 <= i < n && rs[i].end == e > at
  {
    if n > 0 { OpenEndsSound(rs, n - 1, at); }
  }

  /** Every region still open is on the stack. */
  lemma {:induction false} OpenEndsComplete(rs: seq<Region>, n: nat, at: int, i: nat)
    requires i < n <= |rs| && rs[i].end > at
    ensures rs[i].end in OpenEnds(rs, n, at)
  {
    if i < n - 1 { OpenEndsComplete(rs, n - 1, at, i); }
  }

  /** In a laminar prefix whose starts are all passed, the open ends taper. */
  lemma {:induction false} OpenEndsTaper(rs: seq<Region>, n: nat, at: int)
    requires n <= |rs|
    requires forall i, j :: 0 <= i < j < n ==> AfterOrInside(rs[i], rs[j])
    requires forall i :: 0 <= i < n ==> rs[i].start <= at
    ensures Tapers(OpenEnds(rs, n, at))
  {
    if n > 0 {
      OpenEndsTaper(rs, n - 1, at);
      OpenEndsSound(rs, n - 1, at);
      var before := OpenEnds(rs, n - 1, at);
      forall i | 0 <= i < |before| && rs[n - 1].end > at ensures rs[n - 1].end <= before[i] {
        assert before[i] in before;
        var k :| 0 <= k < n - 1 && rs[k].end == before[i] > at;
        assert AfterOrInside(rs[k], rs[n - 1]);
      }
    }
  }

  /** The ends that lie past `to`. */
  function Above(ends: seq<u32>, to: int): seq<u32> {
    if ends == [] then []
    else
      var last := |ends| - 1;
      Above(ends[..last], to) + if ends[last] > to then [ends[last]] else []
  }

  lemma {:induction false} OpenEndsAdvance(rs: seq<Region>, n: nat, at: int, to: int)
    requires n <= |rs| && at <= to
    ensures OpenEnds(rs, n, to) == Above(OpenEnds(rs, n, at), to)
  {
    if n > 0 {
      OpenEndsAdvance(rs, n - 1, at, to);
      var all, before := OpenEnds(rs, n, at), OpenEnds(rs, n - 1, at);
      if rs[n - 1].end > at { assert all[..|all| - 1] == before; }
    }
  }

  /** Popping the closed regions off the top of a tapering stack is the filter. */
  lemma {:induction false} PoppingFilters(ends: seq<u32>, to: int, kept: nat)
    requires kept <= |ends|
    requires forall k :: kept <= k < |ends| ==> ends[k] <= to
    requires forall k :: 0 <= k < kept ==> ends[k] > to
    ensures Above(ends, to) == ends[..kept]
  {
    if ends != [] {
      var last := |ends| - 1;
      PoppingFilters(ends[..last], to, if kept <= last then kept else last);
      if kept <= last { assert ends[..last][..kept] == ends[..kept]; } else { assert ends[..kept] == ends[..last] + [ends[last]]; }
    }
  }

  /** A new region against the open ones: the top of the stack decides for all. */
  lemma TopDecides(rs: seq<Region>, region: Region)
    requires Tapers(OpenEnds(rs, |rs|, region.start))
    requires forall i :: 0 <= i < |rs| ==> rs[i].start <= region.start
    ensures var open := OpenEnds(rs, |rs|, region.start);
            (forall i :: 0 <= i < |rs| ==> AfterOrInside(rs[i], region)) <==>
            (open == [] || region.end <= open[|open| - 1])
  {
    var open := OpenEnds(rs, |rs|, region.start);
    if open != [] {
      OpenEndsSound(rs, |rs|, region.start);
      assert open[|open| - 1] in open;
    }
    if open == [] || region.end <= open[|open| - 1] {
      forall i | 0 <= i < |rs| ensures AfterOrInside(rs[i], region) {
        if rs[i].end > region.start { OpenEndsComplete(rs, |rs|, region.start, i); }
      }
    }
  }

  method RegionShapeAdmitted(s: Subject, r: Region, state: array<int>) returns (ok: bool)
    requires Marked(s.code, state[..])
    ensures ok <==> RegionShapeOk(s, r)
    ensures ok ==> r.start < r.end
  {
    ok := !(r.start >= r.end || r.end > |s.code| || r.register >= s.shape.registerCount);
    if ok {
      assert state[..][r.start] == state[r.start];
      ok := state[r.start] != NOT_START;
    }
    if ok && r.handler < |s.code| {
      assert state[..][r.handler] == state[r.handler];
      ok := state[r.handler] != NOT_START;
    }
  }

  /** Open ends look only at the part of the table they are asked about. */
  lemma {:induction false} OpenEndsPrefix(rs: seq<Region>, full: seq<Region>, n: nat, at: int)
    requires n <= |rs| <= |full| && rs == full[..|rs|]
    ensures OpenEnds(full, n, at) == OpenEnds(rs, n, at)
  {
    if n > 0 { OpenEndsPrefix(rs, full, n - 1, at); }
  }

  /** Where the last region of a table starts. */
  function LastStart(rs: seq<Region>): int { if rs == [] then 0 else rs[|rs| - 1].start }

  /** What the last entry of a table must satisfy, given the ones before it. */
  ghost predicate EntryOk(rs: seq<Region>, region: Region) {
    && (forall i :: 0 <= i < |rs| ==> AfterOrInside(rs[i], region))
    && |OpenEnds(rs, |rs|, region.start)| < MAX_REGION_NESTING
  }

  lemma NestingExtends(rs: seq<Region>, region: Region)
    ensures NestingOk(rs + [region]) <==> NestingOk(rs) && EntryOk(rs, region)
  {
    var longer, n := rs + [region], |rs|;
    OpenEndsPrefix(rs, longer, n, region.start);
    forall j | 0 <= j < n ensures Shallow(rs, j) <==> Shallow(longer, j) {
      OpenEndsPrefix(rs, longer, j, rs[j].start);
    }
    if NestingOk(longer) {
      forall i, j | 0 <= i < j < n ensures AfterOrInside(rs[i], rs[j]) { assert AfterOrInside(longer[i], longer[j]); }
      forall i | 0 <= i < n ensures AfterOrInside(rs[i], region) { assert AfterOrInside(longer[i], longer[n]); }
      assert Shallow(longer, n);
    }
  }

  /** Popping the closed regions leaves the stack that judges the new one. */
  lemma StackStep(rs: seq<Region>, region: Region, kept: nat)
    requires Laminar(rs) && LastStart(rs) <= region.start < region.end
    requires var open := OpenEnds(rs, |rs|, LastStart(rs));
             && kept <= |open| && (forall k :: kept <= k < |open| ==> open[k] <= region.start)
             && (kept > 0 ==> open[kept - 1] > region.start)
    ensures var open := OpenEnds(rs, |rs|, LastStart(rs));
            && OpenEnds(rs, |rs|, region.start) == open[..kept]
            && OpenEnds(rs + [region], |rs| + 1, region.start) == open[..kept] + [region.end]
            && ((forall i :: 0 <= i < |rs| ==> AfterOrInside(rs[i], region)) <==> kept == 0 || region.end <= open[kept - 1])
  {
    hide OpenEnds, Above;
    var open, n := OpenEnds(rs, |rs|, LastStart(rs)), |rs|;
    forall i | 0 <= i < n ensures rs[i].start <= LastStart(rs) {
      assert i < n - 1 ==> AfterOrInside(rs[i], rs[n - 1]);
    }
    OpenEndsTaper(rs, n, LastStart(rs));
    OpenEndsAdvance(rs, n, LastStart(rs), region.start);
    PoppingFilters(open, region.start, kept);
    OpenEndsSnoc(rs, region);
    TopDecides(rs, region);
  }

  lemma OpenEndsSnoc(rs: seq<Region>, region: Region)
    requires region.start < region.end
    ensures OpenEnds(rs + [region], |rs| + 1, region.start) == OpenEnds(rs, |rs|, region.start) + [region.end]
  {
    OpenEndsPrefix(rs, rs + [region], |rs|, region.start);
  }

  /** `rs` is what the first entries of the function's table hold. */
  ghost predicate Reads(s: Subject, rs: seq<Region>) {
    |rs| <= s.shape.exceptionCount && forall i :: 0 <= i < |rs| ==> s.RegionAt(i) == Some(rs[i])
  }

  /** Prefixes of an admitted table are admitted. */
  lemma {:induction false} NestingPrefix(full: seq<Region>, n: nat)
    requires NestingOk(full) && n <= |full|
    ensures NestingOk(full[..n])
    decreases |full|
  {
    if n < |full| {
      var last := |full| - 1;
      assert full[..last] + [full[last]] == full;
      NestingExtends(full[..last], full[last]);
      assert full[..last][..n] == full[..n];
      NestingPrefix(full[..last], n);
    } else {
      assert full[..n] == full;
    }
  }

  lemma Refutes(s: Subject, rs: seq<Region>, region: Region)
    requires Reads(s, rs + [region]) && NestingOk(rs) && (RegionShapeOk(s, region) ==> !EntryOk(rs, region))
    ensures !RegionsOk(s)
  {
    NestingExtends(rs, region);
    if RegionsOk(s) {
      assert s.Regions()[..|rs| + 1] == rs + [region];
      assert s.Regions()[|rs|] == region;
      NestingPrefix(s.Regions(), |rs| + 1);
    }
  }

  lemma NothingNests()
    ensures NestingOk([])
  {}

  lemma OutOfOrder(rs: seq<Region>, region: Region)
    ensures region.start < LastStart(rs) ==> !EntryOk(rs, region)
  {
    if rs != [] && AfterOrInside(rs[|rs| - 1], region) {}
  }

  /** The stack top after every region that ends by `at` is popped. */
  method PopClosed(open: array<u32>, openCount: nat, at: u32) returns (kept: nat)
    requires openCount <= open.Length
    ensures kept <= openCount
    ensures forall k :: kept <= k < openCount ==> open[k] <= at
    ensures kept > 0 ==> open[kept - 1] > at
  {
    kept := openCount;
    while kept > 0 && open[kept - 1] <= at
      invariant 0 <= kept <= openCount
      invariant forall k :: kept <= k < openCount ==> open[k] <= at
    {
      kept := kept - 1;
    }
  }

  /** One entry: whether it is admitted, and the stack with it on top. */
  method CheckRegion(ghost rs: seq<Region>, region: Region, open: array<u32>, openCount: nat)
    returns (ok: bool, count: nat)
    requires open.Length == MAX_REGION_NESTING && openCount <= MAX_REGION_NESTING
    requires NestingOk(rs) && LastStart(rs) <= region.start < region.end
    requires open[..openCount] == OpenEnds(rs, |rs|, LastStart(rs))
    modifies open
    ensures ok <==> EntryOk(rs, region)
    ensures ok ==> count <= MAX_REGION_NESTING
    ensures ok ==> open[..count] == OpenEnds(rs + [region], |rs| + 1, region.start)
  {
    count := PopClosed(open, openCount, region.start);
    StackStep(rs, region, count);
    assert open[..count] == open[..openCount][..count];
    if count > 0 && region.end > open[count - 1] { return false, count; }
    if count >= MAX_REGION_NESTING { return false, count; }
    open[count] := region.end;
    count := count + 1;
    ok := true;
  }

  /** A stack of open regions decides whether the table is in order and laminar. */
  method CheckRegions(s: Subject, state: array<int>) returns (ok: bool)
    requires Marked(s.code, state[..])
    ensures ok <==> RegionsOk(s)
  {
    hide RegionShapeOk, NestingOk;
    var open := new u32[MAX_REGION_NESTING];
    var openCount, previousStart, slot := 0, 0, 0;
    NothingNests();
    ghost var rs: seq<Region> := [];
    while slot < s.shape.exceptionCount
      invariant 0 <= slot == |rs| <= s.shape.exceptionCount
      invariant 0 <= openCount <= MAX_REGION_NESTING
      invariant Reads(s, rs) && NestingOk(rs)
      invariant forall i :: 0 <= i < |rs| ==> RegionShapeOk(s, rs[i])
      invariant previousStart == LastStart(rs)
      invariant open[..openCount] == OpenEnds(rs, slot, previousStart)
    {
      var entry := s.RegionAt(slot);
      if entry.None? { return false; }
      var region := entry.value;
      assert Reads(s, rs + [region]);
      var shaped := RegionShapeAdmitted(s, region, state);
      if !shaped || region.start < previousStart {
        OutOfOrder(rs, region);
        Refutes(s, rs, region);
        return false;
      }
      var fits, count := CheckRegion(rs, region, open, openCount);
      if !fits {
        Refutes(s, rs, region);
        return false;
      }
      NestingExtends(rs, region);
      rs, openCount, previousStart, slot := rs + [region], count, region.start, slot + 1;
    }
    assert s.Regions() == rs;
    ok := true;
  }
}
