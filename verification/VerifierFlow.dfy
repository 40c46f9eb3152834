/** The second pass: where control goes, and the context depth it brings there. */
module VerifierFlow {
  import opened Words
  import opened Bytecode
  import opened Verifier
  import opened VerifierSweeps

  /** What the sweep knows when it stands at `offset` with `depth` falling in:
      everything before is settled, and what lies ahead is marked with a depth
      exactly when something behind transfers control there. */
  ghost predicate Sound(s: Subject, d: seq<int>, offset: int, depth: Option<int>)
    requires Shaped(s.code) && s.RegionsPresent()
  {
    && |d| == |s.code|
    && (forall p :: 0 <= p < |d| ==> (d[p] == NOT_START <==> !Boundary(s.code, p)) && d[p] >= -2)
    && (forall p :: Boundary(s.code, p) && p < offset ==>
          SettledAt(s, d, p) && FallsTo(s, d, p, offset, depth) && Reached(s, p))
    && (forall p :: Boundary(s.code, p) && offset <= p ==> (d[p] >= 0 <==> Entered(s, p, offset)))
    && (offset > 0 && d != [] ==> d[0] == 0)
  }

  /** The fall-through edge out of `p`, which the sweep may still be carrying. */
  ghost predicate FallsTo(s: Subject, d: seq<int>, p: int, offset: int, depth: Option<int>)
    requires |d| == |s.code| && Boundary(s.code, p)
  {
    var op, next := At(s.code, p).opcode, Next(s.code, p);
    !IsTerminator(op) ==>
      if next == offset then depth == Some(After(op, d[p]))
      else 0 <= next < |d| && d[next] == After(op, d[p])
  }

  /** The carried depth says whether control falls into `offset`. */
  ghost predicate Carried(s: Subject, offset: int, depth: Option<int>)
    requires Shaped(s.code)
  {
    && (depth.Some? <==> offset == 0 || FallsInto(s.code, offset))
    && (depth.Some? ==> depth.value >= 0)
    && (offset == 0 ==> depth == Some(0))
  }

  /** The table agrees with any complete solution `e`. */
  ghost predicate Agrees(d: seq<int>, offset: int, depth: Option<int>, e: seq<int>) {
    && |d| == |e|
    && (forall p :: 0 <= p < |d| && d[p] >= 0 ==> d[p] == e[p])
    && (depth.Some? && 0 <= offset < |e| ==> depth.value == e[offset])
  }

  /** What visiting `p` at depth `current` writes: its own depth, and a depth for
      each unmarked place it transfers control to. */
  ghost predicate Visits(s: Subject, d: seq<int>, d': seq<int>, p: int, current: int)
    requires Shaped(s.code) && s.RegionsPresent() && Boundary(s.code, p) && |d| == |d'| == |s.code|
  {
    && d'[p] == current
    && (forall q :: 0 <= q < |d| && q != p ==>
          d'[q] == d[q] || (d[q] == UNVISITED && d'[q] >= 0 && Enters(s, p, q)))
    && (forall q :: 0 <= q < |d| && Enters(s, p, q) ==> d'[q] >= 0)
  }

  /** Settled places stay settled while unmarked ones are given depths. */
  lemma SettledStays(s: Subject, d: seq<int>, d': seq<int>, p: int)
    requires Shaped(s.code) && s.RegionsPresent() && Boundary(s.code, p) && |d| == |d'| == |s.code|
    requires SettledAt(s, d, p)
    requires forall q :: 0 <= q < |d| && d[q] >= 0 ==> d'[q] == d[q]
    ensures SettledAt(s, d', p)
  {
    forall i | 0 <= i < |s.Regions()| && s.Regions()[i].start == p
      ensures s.Regions()[i].contextDepth == d'[p]
      ensures s.Regions()[i].handler < |s.code| ==> d'[s.Regions()[i].handler] == d'[p]
    {
      assert s.Regions()[i].contextDepth == d[p];
    }
  }

  /** Visiting one instruction carries the sweep to the next. */
  lemma Advance(s: Subject, d: seq<int>, d': seq<int>, p: int, depth: Option<int>, current: int)
    requires Shaped(s.code) && s.RegionsPresent() && Boundary(s.code, p)
    requires Sound(s, d, p, depth) && Carried(s, p, depth)
    requires |d'| == |d| && Visits(s, d, d', p, current) && SettledAt(s, d', p)
    requires (depth.Some? ==> current == depth.value) && (d[p] >= 0 ==> current == d[p])
    requires depth.None? ==> d[p] >= 0
    ensures var op, next := At(s.code, p).opcode, Next(s.code, p);
            var depth' := if IsTerminator(op) then None else Some(After(op, current));
            Sound(s, d', next, depth') && Carried(s, next, depth')
  {
    hide SettledAt, FallsTo, Entered, Enters, Reached, Carried, Follows;
    var op, next := At(s.code, p).opcode, Next(s.code, p);
    var depth' := if IsTerminator(op) then None else Some(After(op, current));
    forall q | Boundary(s.code, q) ensures q <= p || next <= q {
      if p < q { NothingBetween(s.code, p, q); }
    }
    forall q | Boundary(s.code, q) && q < p ensures SettledAt(s, d', q) && FallsTo(s, d', q, next, depth') {
      SettledNext(s, d, d', p, depth, current, q, depth');
    }
    HereSettled(s, d', p, depth, current, depth');
    ReachedHere(s, d, p, depth);
    forall q | Boundary(s.code, q) && next <= q ensures d'[q] >= 0 <==> Entered(s, q, next) {
      EnteredNext(s, d, d', p, depth, current, q);
    }
    CarriedNext(s, p, current, depth');
  }

  lemma HereSettled(s: Subject, d': seq<int>, p: int, depth: Option<int>, current: int, depth': Option<int>)
    requires Shaped(s.code) && s.RegionsPresent() && Boundary(s.code, p) && |d'| == |s.code| && d'[p] == current && SettledAt(s, d', p)
    requires Carried(s, p, depth) && (depth.Some? ==> current == depth.value)
    requires depth' == if IsTerminator(At(s.code, p).opcode) then None else Some(After(At(s.code, p).opcode, current))
    ensures FallsTo(s, d', p, Next(s.code, p), depth') && After(At(s.code, p).opcode, current) >= 0
    ensures current >= 0 && (p == 0 ==> current == 0)
  {
    hide Follows;
  }

  /** Control reaches `p`: it is carried there, or was sent there. */
  lemma ReachedHere(s: Subject, d: seq<int>, p: int, depth: Option<int>)
    requires Shaped(s.code) && s.RegionsPresent() && Boundary(s.code, p) && Sound(s, d, p, depth) && Carried(s, p, depth)
    requires depth.None? ==> d[p] >= 0
    ensures Reached(s, p)
  {
    hide SettledAt, FallsTo, Follows;
  }

  /** A place behind keeps its depth, and falls where it fell. */
  lemma SettledNext(s: Subject, d: seq<int>, d': seq<int>, p: int, depth: Option<int>, current: int, q: int, depth': Option<int>)
    requires Shaped(s.code) && s.RegionsPresent() && Boundary(s.code, p) && Sound(s, d, p, depth)
    requires |d'| == |d| && Visits(s, d, d', p, current) && Boundary(s.code, q) && q < p
    requires (depth.Some? ==> current == depth.value) && (d[p] >= 0 ==> current == d[p])
    ensures SettledAt(s, d', q) && FallsTo(s, d', q, Next(s.code, p), depth')
  {
    hide SettledAt, Entered, Enters, Reached, Follows;
    SettledStays(s, d, d', q);
    SettledThere(s, d, q);
    NothingBetween(s.code, q, p);
  }

  lemma SettledThere(s: Subject, d: seq<int>, q: int)
    requires Shaped(s.code) && s.RegionsPresent() && |d| == |s.code| && Boundary(s.code, q) && SettledAt(s, d, q)
    ensures d[q] >= 0 && After(At(s.code, q).opcode, d[q]) >= 0
  {}

  /** The places ahead with a depth are those control has been sent to, `p` included. */
  lemma EnteredNext(s: Subject, d: seq<int>, d': seq<int>, p: int, depth: Option<int>, current: int, q: int)
    requires Shaped(s.code) && s.RegionsPresent() && Boundary(s.code, p) && Sound(s, d, p, depth)
    requires |d'| == |d| && Visits(s, d, d', p, current) && Boundary(s.code, q) && Next(s.code, p) <= q
    requires forall r :: Boundary(s.code, r) ==> r <= p || Next(s.code, p) <= r
    ensures d'[q] >= 0 <==> Entered(s, q, Next(s.code, p))
  {
    hide SettledAt, FallsTo, Reached;
    var next := Next(s.code, p);
    if Entered(s, q, next) {
      var r :| r < next && Enters(s, r, q);
      assert r < p ==> Entered(s, q, p);
    }
    if d[q] >= 0 { var r :| r < p && Enters(s, r, q); }
  }

  /** Only the instruction at `p` falls into the next one. */
  lemma CarriedNext(s: Subject, p: int, current: int, depth': Option<int>)
    requires Shaped(s.code) && Boundary(s.code, p) && After(At(s.code, p).opcode, current) >= 0
    requires depth' == if IsTerminator(At(s.code, p).opcode) then None else Some(After(At(s.code, p).opcode, current))
    ensures Carried(s, Next(s.code, p), depth')
  {
    forall q | Boundary(s.code, q) && Next(s.code, q) == Next(s.code, p) ensures q == p {
      if q < p { NothingBetween(s.code, q, p); }
      if p < q { NothingBetween(s.code, p, q); }
    }
  }

  /** The table only gains depths, and only where it had none. */
  ghost predicate Fills(d: seq<int>, d': seq<int>, value: int) {
    && |d'| == |d|
    && forall q :: 0 <= q < |d| ==> d'[q] == d[q] || (d[q] == UNVISITED && d'[q] == value)
  }

  /** Region `i`, if it starts at `p`, is consistent with depth `current`. */
  ghost predicate HandlerSettled(s: Subject, d: seq<int>, p: int, current: int, i: nat)
    requires s.RegionsPresent() && i < |s.Regions()| && |d| == |s.code|
  {
    var r := s.Regions()[i];
    r.start == p ==> r.contextDepth == current && (r.handler < |d| ==> d[r.handler] == current)
  }

  ghost predicate HandlesAt(s: Subject, p: int, q: int)
    requires s.RegionsPresent()
  {
    exists i :: 0 <= i < |s.Regions()| && s.Regions()[i].start == p && s.Regions()[i].handler == q
  }

  /** `d'` is `d` with every handler of a region starting at `p` given `current`. */
  ghost predicate HandlersMarked(s: Subject, d: seq<int>, d': seq<int>, p: int, current: int)
    requires s.RegionsPresent()
  {
    && |d| == |s.code| && Fills(d, d', current)
    && (forall q :: 0 <= q < |d| && d'[q] != d[q] ==> HandlesAt(s, p, q))
    && (forall i :: 0 <= i < |s.Regions()| ==> HandlerSettled(s, d', p, current, i))
  }

  /** Some region starting at `p` contradicts the table. */
  ghost predicate HandlersClash(s: Subject, d: seq<int>, p: int, current: int)
    requires s.RegionsPresent() && |d| == |s.code|
  {
    exists i :: 0 <= i < |s.Regions()| && s.Regions()[i].start == p &&
      var r := s.Regions()[i];
      r.contextDepth != current || (r.handler < |d| && d[r.handler] >= 0 && d[r.handler] != current)
  }

  /** A handler starts at the depth of its region's start. */
  method MarkHandlers(s: Subject, state: array<int>, p: int, current: int) returns (ok: bool)
    requires RegionsOk(s) && state.Length == |s.code| && current >= 0
    requires forall q :: 0 <= q < |s.code| && Boundary(s.code, q) ==> state[q] == UNVISITED || state[q] >= 0
    modifies state
    ensures ok ==> HandlersMarked(s, old(state[..]), state[..], p, current)
    ensures !ok ==> HandlersClash(s, old(state[..]), p, current)
  {
    var index := 0;
    while index < s.shape.exceptionCount
      invariant 0 <= index <= s.shape.exceptionCount
      invariant Fills(old(state[..]), state[..], current)
      invariant forall q :: 0 <= q < |s.code| && Boundary(s.code, q) ==> state[q] == UNVISITED || state[q] >= 0
      invariant forall q :: 0 <= q < |s.code| && state[q] != old(state[q]) ==> HandlesAt(s, p, q)
      invariant forall i :: 0 <= i < index ==> HandlerSettled(s, state[..], p, current, i)
    {
      var region := s.RegionAt(index).value;
      assert region == s.Regions()[index] && RegionShapeOk(s, region);
      if region.start == p {
        if region.contextDepth != current { return false; }
        if region.handler < |s.code| {
          var stored := state[region.handler];
          if stored >= 0 {
            if stored != current {
              assert stored == old(state[..])[region.handler];
              return false;
            }
          } else {
            ghost var before := state[..];
            state[region.handler] := current;
            forall i | 0 <= i < index ensures HandlerSettled(s, state[..], p, current, i) {
              assert HandlerSettled(s, before, p, current, i);
            }
          }
        }
      }
      index := index + 1;
    }
    ok := true;
  }

  /** What the verifier asks of a branch at `p` leaving depth `next`. */
  ghost predicate BranchOk(s: Subject, d: seq<int>, p: int, next: int)
    requires Shaped(s.code) && Boundary(s.code, p) && IsBranch(At(s.code, p).opcode) && |d| == |s.code|
  {
    var t := Target(s.code, p);
    Boundary(s.code, t) && (t <= p ==> s.IsSafePoint(t)) && (d[t] >= 0 ==> d[t] == next)
  }

  /** A branch gives its target the depth it leaves behind. */
  method MarkTarget(s: Subject, state: array<int>, p: int, next: int) returns (ok: bool)
    requires Shaped(s.code) && state.Length == |s.code| && next >= 0
    requires Boundary(s.code, p) && IsBranch(At(s.code, p).opcode)
    requires forall q :: 0 <= q < |s.code| ==> (state[q] == NOT_START <==> !Boundary(s.code, q)) && state[q] >= -2
    modifies state
    ensures ok <==> BranchOk(s, old(state[..]), p, next)
    ensures ok ==> state[..] == old(state[..])[Target(s.code, p) := next]
  {
    var target := p + At(s.code, p).signed[0];
    if target < 0 || target >= |s.code| { return false; }
    var stored := state[target];
    if stored == NOT_START { return false; }
    if target <= p {
      var safe := IsSafePointAt(s, target);
      if !safe { return false; }
    }
    if stored >= 0 { return stored == next; }
    state[target] := next;
    ok := true;
  }

  /** The depth table after visiting `p`: own depth, then handlers, then target. */
  ghost predicate Written(s: Subject, d: seq<int>, d1: seq<int>, d2: seq<int>, p: int, current: int)
    requires Shaped(s.code) && s.RegionsPresent() && Boundary(s.code, p) && |d| == |s.code|
  {
    var op := At(s.code, p).opcode;
    var next := After(op, current);
    && HandlersMarked(s, d[p := current], d1, p, current)
    && 0 <= next <= Min(s.shape.contextDepth, I32_MAX)
    && (op == RETURN ==> next == 0)
    && (if IsBranch(op) then BranchOk(s, d1, p, next) && d2 == d1[Target(s.code, p) := next] else d2 == d1)
  }

  lemma WrittenSettles(s: Subject, d: seq<int>, d1: seq<int>, d2: seq<int>, p: int, current: int)
    requires CodeOk(s) && RegionsOk(s) && Boundary(s.code, p) && |d| == |s.code| && current >= 0
    requires forall q :: 0 <= q < |d| ==> (d[q] == NOT_START <==> !Boundary(s.code, q)) && d[q] >= -2
    requires Written(s, d, d1, d2, p, current)
    ensures SettledAt(s, d2, p)
  {
    forall i | 0 <= i < |s.Regions()| && s.Regions()[i].start == p
      ensures s.Regions()[i].contextDepth == d2[p]
      ensures s.Regions()[i].handler < |s.code| ==> d2[s.Regions()[i].handler] == d2[p]
    {
      assert HandlerSettled(s, d1, p, current, i);
    }
  }

  lemma WrittenVisits(s: Subject, d: seq<int>, d1: seq<int>, d2: seq<int>, p: int, current: int)
    requires CodeOk(s) && RegionsOk(s) && Boundary(s.code, p) && |d| == |s.code| && current >= 0
    requires forall q :: 0 <= q < |d| ==> (d[q] == NOT_START <==> !Boundary(s.code, q)) && d[q] >= -2
    requires Written(s, d, d1, d2, p, current)
    ensures Visits(s, d, d2, p, current)
  {
    forall q | 0 <= q < |d| && HandlesAt(s, p, q) ensures d2[q] >= 0 {
      var i :| 0 <= i < |s.Regions()| && s.Regions()[i].start == p && s.Regions()[i].handler == q;
      assert HandlerSettled(s, d1, p, current, i);
    }
  }

  /** Any complete solution gives the places just marked the same depths. */
  lemma WrittenAgrees(s: Subject, d: seq<int>, d1: seq<int>, d2: seq<int>, p: int, depth: Option<int>, current: int, e: seq<int>)
    requires CodeOk(s) && RegionsOk(s) && Boundary(s.code, p) && |d| == |s.code| && current >= 0
    requires Written(s, d, d1, d2, p, current)
    requires Settled(s, e) && Agrees(d, p, depth, e) && e[p] == current
    ensures var op := At(s.code, p).opcode;
            Agrees(d2, Next(s.code, p), if IsTerminator(op) then None else Some(After(op, current)), e)
  {
    assert SettledAt(s, e, p) && FallsThroughSettled(s, e, p);
    forall q | 0 <= q < |d| && d1[q] != d[p := current][q] ensures d1[q] == e[q] {
      assert HandlesAt(s, p, q);
    }
  }

  /** A clash at `p` rules every complete solution out. */
  lemma ClashRefutes(s: Subject, d: seq<int>, p: int, current: int, e: seq<int>)
    requires Shaped(s.code) && s.RegionsPresent() && |d| == |s.code| && Boundary(s.code, p)
    requires HandlersClash(s, d, p, current)
    requires Settled(s, e) ==> e[p] == current && forall q :: 0 <= q < |d| && d[q] >= 0 ==> d[q] == e[q]
    ensures !Settled(s, e)
  {}

  /** The depth `p` is visited at, when the verifier goes on. */
  lemma CurrentForced(s: Subject, d: seq<int>, p: int, depth: Option<int>, e: seq<int>)
    requires CodeOk(s) && RegionsOk(s) && Boundary(s.code, p)
    requires Sound(s, d, p, depth) && Carried(s, p, depth)
    requires Settled(s, e) ==> Agrees(d, p, depth, e)
    ensures depth.None? && d[p] < 0 ==> !Reached(s, p)
    ensures depth.Some? && d[p] >= 0 && d[p] != depth.value ==> !Settled(s, e)
    ensures Settled(s, e) && (depth.Some? || d[p] >= 0) ==> e[p] == if depth.Some? then depth.value else d[p]
  {}

  /** One instruction of the second sweep.  `e` is any complete solution there
      may be: when the sweep stops, there is none. */
  method Visit(s: Subject, state: array<int>, p: int, depth: Option<int>, ghost e: seq<int>)
    returns (ok: bool, depth': Option<int>)
    requires CodeOk(s) && RegionsOk(s) && state.Length == |s.code| && Boundary(s.code, p)
    requires Sound(s, state[..], p, depth) && Carried(s, p, depth)
    requires Settled(s, e) ==> Agrees(state[..], p, depth, e)
    modifies state
    ensures ok ==> Sound(s, state[..], Next(s.code, p), depth') && Carried(s, Next(s.code, p), depth')
    ensures ok && Settled(s, e) ==> Agrees(state[..], Next(s.code, p), depth', e)
    ensures !ok ==> !Reached(s, p) || !Settled(s, e)
  {
    ghost var d := state[..];
    CurrentForced(s, d, p, depth, e);
    var recorded := state[p];
    if (depth.Some? && recorded >= 0 && recorded != depth.value) || (depth.None? && recorded < 0) {
      return false, None;
    }
    var current := if depth.Some? then depth.value else recorded;
    ok := Transfer(s, state, p, current, d, depth, e);
    if !ok { return false, None; }
    Advance(s, d, state[..], p, depth, current);
    var op := At(s.code, p).opcode;
    depth' := if IsTerminator(op) then None else Some(After(op, current));
  }

  /** Record the depth at `p` and hand it on to handlers and to a branch target. */
  method Transfer(s: Subject, state: array<int>, p: int, current: int,
                  ghost d: seq<int>, ghost depth: Option<int>, ghost e: seq<int>)
    returns (ok: bool)
    requires CodeOk(s) && RegionsOk(s) && state.Length == |s.code| && Boundary(s.code, p) && current >= 0
    requires d == state[..]
    requires forall q :: 0 <= q < |d| ==> (d[q] == NOT_START <==> !Boundary(s.code, q)) && d[q] >= -2
    requires Settled(s, e) ==> Agrees(d, p, depth, e) && e[p] == current
    modifies state
    ensures ok ==> Visits(s, d, state[..], p, current) && SettledAt(s, state[..], p)
    ensures ok && Settled(s, e) ==>
              var op := At(s.code, p).opcode;
              Agrees(state[..], Next(s.code, p), if IsTerminator(op) then None else Some(After(op, current)), e)
    ensures !ok ==> !Settled(s, e)
  {
    state[p] := current;
    assert state[..] == d[p := current];
    var handled := MarkHandlers(s, state, p, current);
    if !handled {
      ClashRefutes(s, d[p := current], p, current, e);
      return false;
    }
    ghost var d1 := state[..];
    var op := At(s.code, p).opcode;
    var next := After(op, current);
    if next < 0 || next > Min(s.shape.contextDepth, I32_MAX) || (op == RETURN && next != 0) {
      return false;
    }
    if IsBranch(op) {
      var marked := MarkTarget(s, state, p, next);
      if !marked {
        BranchRefutes(s, d, d1, p, current, depth, e);
        return false;
      }
    }
    WrittenSettles(s, d, d1, state[..], p, current);
    WrittenVisits(s, d, d1, state[..], p, current);
    if Settled(s, e) { WrittenAgrees(s, d, d1, state[..], p, depth, current, e); }
    ok := true;
  }

  lemma BranchRefutes(s: Subject, d: seq<int>, d1: seq<int>, p: int, current: int, depth: Option<int>, e: seq<int>)
    requires CodeOk(s) && RegionsOk(s) && |d| == |s.code| && Boundary(s.code, p) && IsBranch(At(s.code, p).opcode)
    requires HandlersMarked(s, d[p := current], d1, p, current)
    requires Settled(s, e) ==> Agrees(d, p, depth, e) && e[p] == current
    requires !BranchOk(s, d1, p, After(At(s.code, p).opcode, current))
    ensures !Settled(s, e)
  {
    var t := Target(s.code, p);
    if 0 <= t < |d| && d1[t] != d[p := current][t] { assert HandlesAt(s, p, t); }
  }

  /** Pass two over the whole function. */
  method PassTwo(s: Subject, state: array<int>, ghost e: seq<int>) returns (ok: bool)
    requires CodeOk(s) && RegionsOk(s) && Marked(s.code, state[..])
    modifies state
    ensures ok ==> Settled(s, state[..]) && forall p :: Boundary(s.code, p) ==> Reached(s, p)
    ensures !ok ==> !Settled(s, e) || exists p :: Boundary(s.code, p) && !Reached(s, p)
  {
    var offset, depth := 0, Some(0);
    StartsSound(s, state[..]);
    while offset < |s.code|
      invariant 0 <= offset <= |s.code| && Follows(s.code, 0, offset)
      invariant Sound(s, state[..], offset, depth) && Carried(s, offset, depth)
      invariant Settled(s, e) ==> Agrees(state[..], offset, depth, e)
    {
      FollowsLinear(s.code, 0, offset, |s.code|);
      assert Boundary(s.code, offset);
      var went, next := Visit(s, state, offset, depth, e);
      if !went { return false; }
      FollowsExtends(s.code, 0, offset);
      offset, depth := Next(s.code, offset), next;
    }
    EndsSettled(s, state[..], depth);
    ok := true;
  }

  lemma StartsSound(s: Subject, d: seq<int>)
    requires CodeOk(s) && RegionsOk(s) && Marked(s.code, d)
    ensures Sound(s, d, 0, Some(0)) && Carried(s, 0, Some(0))
  {
    forall p | Boundary(s.code, p) ensures !Entered(s, p, 0) {}
  }

  lemma EndsSettled(s: Subject, d: seq<int>, depth: Option<int>)
    requires CodeOk(s) && RegionsOk(s) && Sound(s, d, |s.code|, depth)
    ensures Settled(s, d)
  {
    forall p | Boundary(s.code, p) ensures SettledAt(s, d, p) && FallsThroughSettled(s, d, p) {
      assert FallsTo(s, d, p, |s.code|, depth);
    }
  }

  /** The whole verifier over one function: it accepts exactly `Accepts`, and
      leaves the one consistent context depth of every instruction in `state`. */
  method VerifyListing(s: Subject, state: array<int>) returns (ok: bool)
    requires Shaped(s.code) && state.Length == |s.code|
    modifies state
    ensures ok <==> Accepts(s)
    ensures ok ==> Settled(s, state[..])
  {
    ok := PassOne(s, state);
    if !ok { return; }
    ok := CheckSafePoints(s, state);
    if !ok { return; }
    ok := CheckRegions(s, state);
    if !ok { return; }
    ghost var e: seq<int> := if exists e :: Settled(s, e) then var e :| Settled(s, e); e else [];
    ok := PassTwo(s, state, e);
  }

  method VerifyFunction(unit: Unit, shape: FunctionRecord, code: seq<byte>, refused: seq<byte>, state: array<int>)
    returns (ok: bool)
    requires state.Length == |code|
    modifies state
    ensures ok <==> Accepts(Subject(unit, shape, Disassemble(code), refused))
    ensures ok ==> Settled(Subject(unit, shape, Disassemble(code), refused), state[..])
  {
    ok := VerifyListing(Subject(unit, shape, Disassemble(code), refused), state);
  }
}
