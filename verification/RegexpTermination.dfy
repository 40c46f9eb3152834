/** When a search comes to an end: every unbounded repetition moves forward in the
    input, so that a run can make only so many decisions. */
module PatternTermination {
  import opened Words
  import opened PatternPrograms
  import opened PatternSearch
  import opened PatternTrees
  import opened PatternMeaning
  import opened PatternTheorems

  // ----- moving forward -----

  predicate Consumes(instr: Instr) { instr.Char? || instr.CharFolded? || instr.Any? || instr.Class? || instr.Class32? }

  /** No match of `t` is empty. */
  predicate Advances(t: Regex) {
    match t
    case Empty => false
    case Atom(instr) => Consumes(instr)
    case Then(left, right) => Advances(left) || Advances(right)
    case Either(left, right) => Advances(left) && Advances(right)
    case Repeat(body, min, _, _) => min > 0 && Advances(body)
    case Group(_, body) => Advances(body)
  }

  /** No repetition without a bound has a body that can match nothing. */
  predicate Terminating(t: Regex) {
    match t
    case Empty => true
    case Atom(_) => true
    case Then(left, right) => Terminating(left) && Terminating(right)
    case Either(left, right) => Terminating(left) && Terminating(right)
    case Repeat(body, _, max, _) => Terminating(body) && (max.None? ==> Advances(body))
    case Group(_, body) => Terminating(body)
  }

  lemma PerformForward(flags: Flags, input: seq<u16>, instr: Instr, position: nat, slots: Slots)
    requires position <= |input|
    ensures var e := Perform(flags, input, instr, position, slots);
            e.Advance? ==> e.position >= position && (Consumes(instr) ==> e.position > position)
  {}

  ghost predicate Forward(t: Regex, at: Place, r: Steered) {
    r.Reached? ==> r.value.0.position >= at.position && (Advances(t) ==> r.value.0.position > at.position)
  }

  /** Matching never goes back, and goes on where no match is empty. */
  lemma {:induction false} RunsForward(flags: Flags, input: seq<u16>, t: Regex, at: Place, d: seq<bool>)
    requires at.position <= |input|
    ensures Forward(t, at, Runs(flags, input, t, at, d))
    decreases t, 0, 0, 0
  {
    hide Perform;
    match t
    case Empty =>
    case Atom(instr) =>
      PerformForward(flags, input, instr, at.position, at.slots);
    case Then(left, right) =>
      var r := Runs(flags, input, left, at, d);
      RunsForward(flags, input, left, at, d);
      if r.Reached? { RunsForward(flags, input, right, r.value.0, r.value.1); }
    case Either(left, right) =>
      if d != [] { RunsForward(flags, input, if d[0] then right else left, at, d[1..]); }
    case Repeat(body, min, max, isLazy) =>
      TurnsForward(flags, input, body, min, max, isLazy, at, d);
    case Group(index, body) =>
      GroupForward(flags, input, index, body, at, d);
  }

  lemma {:induction false} GroupForward(flags: Flags, input: seq<u16>, index: nat, body: Regex, at: Place, d: seq<bool>)
    requires at.position <= |input|
    ensures Forward(Group(index, body), at, Runs(flags, input, Group(index, body), at, d))
    decreases body, 2, 0, 0
  {
    hide Perform;
    var open := Performs(flags, input, Save(Slot(2 * index)), at, d);
    PerformForward(flags, input, Save(Slot(2 * index)), at.position, at.slots);
    if open.Reached? {
      RunsForward(flags, input, body, open.value.0, open.value.1);
      var r := Runs(flags, input, body, open.value.0, open.value.1);
      if r.Reached? { PerformForward(flags, input, Save(Slot(2 * index + 1)), r.value.0.position, r.value.0.slots); }
    }
  }

  lemma {:induction false} TurnsForward(flags: Flags, input: seq<u16>, body: Regex, min: nat, max: Option<nat>, isLazy: bool, at: Place, d: seq<bool>)
    requires at.position <= |input|
    ensures Forward(Repeat(body, min, max, isLazy), at, Turns(flags, input, body, min, max, isLazy, at, d))
    decreases body, 1, min, |d|
  {
    hide Perform;
    if min > 0 {
      RunsForward(flags, input, body, at, d);
      var r := Runs(flags, input, body, at, d);
      if r.Reached? { TurnsForward(flags, input, body, min - 1, OneLess(max), isLazy, r.value.0, r.value.1); }
    } else if max != Some(0) && d != [] && d[0] == isLazy {
      RunsForward(flags, input, body, at, d[1..]);
      var r := Runs(flags, input, body, at, d[1..]);
      if r.Reached? { TurnsForward(flags, input, body, 0, OneLess(max), isLazy, r.value.0, r.value.1); }
    }
  }

  // ----- how many decisions -----

  /** The turns of a repetition, the one declined included, when so much input is left. */
  function Rounds(min: nat, max: Option<nat>, left: nat): nat {
    min + if max.None? then left + 1 else if max.value > min then max.value - min else 0
  }

  /** The most decisions a run of `t` takes over `n` units of input. */
  function Choices(t: Regex, n: nat): nat {
    match t
    case Empty => 0
    case Atom(_) => 0
    case Then(left, right) => Choices(left, n) + Choices(right, n)
    case Either(left, right) => 1 + Choices(left, n) + Choices(right, n)
    case Repeat(body, min, max, _) => Times(Rounds(min, max, n), 1 + Choices(body, n))
    case Group(_, body) => Choices(body, n)
  }

  function Times(a: nat, b: nat): nat { a * b }

  lemma TimesLess(a: nat, a': nat, b: nat)
    requires a' < a
    ensures Times(a', b) + b <= Times(a, b)
  {
    assert (a - a' - 1) * b >= 0;
    assert a * b == a' * b + b + (a - a' - 1) * b;
  }

  lemma TimesOrder(a: nat, a': nat, b: nat)
    requires a' <= a
    ensures Times(a', b) <= Times(a, b)
  {
    if a' < a { TimesLess(a, a', b); }
  }

  /** The run does not lack decisions, and takes at most `most` of them. */
  ghost predicate TakesFew(d: seq<bool>, r: Steered, most: nat) {
    !r.Starves? && (r.Reached? ==> |r.value.1| + most >= |d|)
  }

  /** Given as many decisions as `Choices` says, a run lacks none. */
  lemma {:induction false} RunsFed(flags: Flags, input: seq<u16>, t: Regex, at: Place, d: seq<bool>)
    requires at.position <= |input| && Terminating(t) && |d| >= Choices(t, |input|)
    ensures TakesFew(d, Runs(flags, input, t, at, d), Choices(t, |input|))
    decreases t, 0, 0, 0
  {
    hide Perform, Times;
    match t
    case Empty =>
    case Atom(instr) =>
    case Then(left, right) =>
      var r := Runs(flags, input, left, at, d);
      RunsFed(flags, input, left, at, d);
      if r.Reached? { RunsFed(flags, input, right, r.value.0, r.value.1); }
    case Either(left, right) =>
      RunsFed(flags, input, if d[0] then right else left, at, d[1..]);
    case Repeat(body, min, max, isLazy) =>
      TimesOrder(Rounds(min, max, |input|), Rounds(min, max, |input| - at.position), 1 + Choices(body, |input|));
      TurnsFed(flags, input, body, min, max, isLazy, at, d);
    case Group(index, body) =>
      var open := Performs(flags, input, Save(Slot(2 * index)), at, d);
      if open.Reached? { RunsFed(flags, input, body, open.value.0, open.value.1); }
  }

  lemma {:induction false} TurnsFed(flags: Flags, input: seq<u16>, body: Regex, min: nat, max: Option<nat>, isLazy: bool, at: Place, d: seq<bool>)
    requires at.position <= |input| && Terminating(body) && (max.None? ==> Advances(body))
    requires |d| >= Times(Rounds(min, max, |input| - at.position), 1 + Choices(body, |input|))
    ensures TakesFew(d, Turns(flags, input, body, min, max, isLazy, at, d),
                     Times(Rounds(min, max, |input| - at.position), 1 + Choices(body, |input|)))
    decreases body, 1, min, |d|, 0
  {
    hide Runs, Times, Choices;
    var c, rounds := 1 + Choices(body, |input|), Rounds(min, max, |input| - at.position);
    if min > 0 {
      TimesLess(rounds, rounds - 1, c);
      RunsFed(flags, input, body, at, d);
      RunsForward(flags, input, body, at, d);
      var r := Runs(flags, input, body, at, d);
      if r.Reached? { NextTurns(flags, input, body, min - 1, OneLess(max), isLazy, r.value.0, r.value.1, rounds - 1); }
    } else if max != Some(0) {
      TimesLess(rounds, rounds - 1, c);
      if d[0] == isLazy {
        RunsFed(flags, input, body, at, d[1..]);
        RunsForward(flags, input, body, at, d[1..]);
        var r := Runs(flags, input, body, at, d[1..]);
        if r.Reached? { NextTurns(flags, input, body, 0, OneLess(max), isLazy, r.value.0, r.value.1, rounds - 1); }
      }
    }
  }

  /** The turns that follow, when no more rounds are left than before. */
  lemma {:induction false} NextTurns(flags: Flags, input: seq<u16>, body: Regex, min: nat, max: Option<nat>, isLazy: bool,
                                     at: Place, d: seq<bool>, rounds: nat)
    requires at.position <= |input| && Terminating(body) && (max.None? ==> Advances(body))
    requires Rounds(min, max, |input| - at.position) <= rounds && |d| >= Times(rounds, 1 + Choices(body, |input|))
    ensures TakesFew(d, Turns(flags, input, body, min, max, isLazy, at, d), Times(rounds, 1 + Choices(body, |input|)))
    decreases body, 1, min, |d|, 1
  {
    hide Turns, Times, Choices;
    TimesOrder(rounds, Rounds(min, max, |input| - at.position), 1 + Choices(body, |input|));
    TurnsFed(flags, input, body, min, max, isLazy, at, d);
  }

  // ----- searching -----

  /** Every run comes to an end, and none lacks decisions that has `most` of them. */
  ghost predicate Shallow(p: Program, input: seq<u16>, start: nat, most: nat)
    requires start <= |input|
  {
    && (forall d: seq<bool> :: RunEnds(p, input, start, d))
    && (forall d: seq<bool>, n: nat :: |d| >= most ==> !After(p, input, Started(start, d), n).Starved?)
  }

  ghost predicate RunEnds(p: Program, input: seq<u16>, start: nat, d: seq<bool>)
    requires start <= |input|
  {
    exists n: nat :: !After(p, input, Started(start, d), n).Running?
  }

  /** From anywhere on its way, a run ends after some more instructions. */
  lemma EndsFrom(p: Program, input: seq<u16>, start: nat, path: seq<bool>, c: Config) returns (m: nat)
    requires start <= |input| && Reaches(p, input, start, path, c) && RunEnds(p, input, start, path)
    ensures c.position <= |input| && !After(p, input, Running(c), m).Running?
  {
    hide Next;
    var o := Started(start, path);
    var k: nat :| After(p, input, o, k) == Running(c);
    var n: nat :| !After(p, input, o, n).Running?;
    AfterSum(p, input, o, n, k);
    AfterSum(p, input, o, k, n);
    m := n;
  }

  /** One instruction of a run that goes on without a decision. */
  lemma ReachesOn(p: Program, input: seq<u16>, start: nat, path: seq<bool>, c: Config, c': Config)
    requires start <= |input| && c.position <= |input| && Reaches(p, input, start, path, c)
    requires Next(p, input, c) == Running(c') && c'.pending == []
    ensures Reaches(p, input, start, path, c')
  {
    hide Next;
    var n: nat :| After(p, input, Started(start, path), n) == Running(c);
    ReachesNext(p, input, start, path, n, c);
  }

  /** A split that is reached needs a decision, so few have been made. */
  lemma SplitIsEarly(p: Program, input: seq<u16>, start: nat, most: nat, path: seq<bool>, c: Config)
    requires start <= |input| && c.position <= |input| && Shallow(p, input, start, most)
    requires Reaches(p, input, start, path, c) && Next(p, input, c).Starved?
    ensures |path| < most
  {
    hide Next;
    var n: nat :| After(p, input, Started(start, path), n) == Running(c);
    ReachesNext(p, input, start, path, n, c);
  }

  /** What the next instruction does to a run under exactly these decisions and to the search. */
  lemma OneInstruction(p: Program, input: seq<u16>, f: Frontier)
    requires PatternSearch.Inside(input, f) && f.here.pending == []
    ensures var o, s := Next(p, input, f.here), Onward(p, input, f);
            match o {
              case Running(c) => c.pending == [] && exists trail: nat :: s == Some(Frontier(c, f.aside, trail))
              case Failed => s == TakenBack(f)
              case Starved =>
                && Fetch(p.code, f.here.pc).Split?
                && s == Some(Frontier(f.here.(pc := Fetch(p.code, f.here.pc).first),
                                      f.aside + [Aside(f.here.(pc := Fetch(p.code, f.here.pc).second), f.trail)], f.trail))
              case Matched(_, _) => s.None?
              case Stopped => s.None?
            }
  {
    hide Fetch, Perform;
    var s := Onward(p, input, f);
    if s.Some? { assert s == Some(Frontier(s.value.here, s.value.aside, s.value.trail)); }
  }

  /** The search leaves the part of the tree below `path` after some instructions: it
      is over, or goes back to what was put aside before. */
  lemma {:induction false} Explores(p: Program, input: seq<u16>, start: nat, most: nat, path: seq<bool>, f: Frontier, n: nat, m: nat) returns (k: nat)
    requires start <= |input| && Shallow(p, input, start, most) && |path| <= most
    requires SearchAfter(p, input, start, n) == Some(f) && Reaches(p, input, start, path, f.here)
    requires !After(p, input, Running(f.here), m).Running?
    ensures var s := SearchAfter(p, input, start, n + k); s.None? || s == TakenBack(f)
    decreases most - |path|, m
  {
    hide Next, Onward, Shallow, Reaches, Fetch;
    var o := Next(p, input, f.here);
    NothingPending(p, input, start, path, f.here);
    OneInstruction(p, input, f);
    assert SearchAfter(p, input, start, n + 1) == Onward(p, input, f);
    if o.Running? {
      var trail: nat :| Onward(p, input, f) == Some(Frontier(o.config, f.aside, trail));
      ReachesOn(p, input, start, path, f.here, o.config);
      var j := Explores(p, input, start, most, path, Frontier(o.config, f.aside, trail), n + 1, m - 1);
      k := 1 + j;
    } else if o.Starved? {
      SplitIsEarly(p, input, start, most, path, f.here);
      k := ExploresBoth(p, input, start, most, path, f, n);
    } else {
      k := 1;
    }
  }

  lemma NothingPending(p: Program, input: seq<u16>, start: nat, path: seq<bool>, c: Config)
    requires start <= |input| && Reaches(p, input, start, path, c)
    ensures c.pending == []
  {}

  /** Both branches of a split, one after the other. */
  lemma {:induction false} ExploresBoth(p: Program, input: seq<u16>, start: nat, most: nat, path: seq<bool>, f: Frontier, n: nat) returns (k: nat)
    requires start <= |input| && Shallow(p, input, start, most) && |path| < most
    requires SearchAfter(p, input, start, n) == Some(f) && Reaches(p, input, start, path, f.here)
    requires Next(p, input, f.here).Starved?
    ensures var s := SearchAfter(p, input, start, n + k); s.None? || s == TakenBack(f)
    decreases most - |path|, 0
  {
    hide Next, Onward, Reaches, Fetch, After;
    NothingPending(p, input, start, path, f.here);
    OneInstruction(p, input, f);
    SplitReaches(p, input, start, path, f.here, false);
    SplitReaches(p, input, start, path, f.here, true);
    var here, there := f.here.(pc := Fetch(p.code, f.here.pc).first), f.here.(pc := Fetch(p.code, f.here.pc).second);
    var first := Frontier(here, f.aside + [Aside(there, f.trail)], f.trail);
    var second := Frontier(there, f.aside, f.trail);
    assert SearchAfter(p, input, start, n + 1) == Some(first);
    var m := EndsFrom(p, input, start, path + [false], here);
    var j := Explores(p, input, start, most, path + [false], first, n + 1, m);
    k := 1 + j;
    assert TakenBack(first) == Some(second);
    if SearchAfter(p, input, start, n + 1 + j).Some? {
      m := EndsFrom(p, input, start, path + [true], there);
      j := Explores(p, input, start, most, path + [true], second, n + k, m);
      k := k + j;
    }
  }

  /** Such a search is over after some number of instructions. */
  lemma SearchEnds(p: Program, input: seq<u16>, start: nat, most: nat) returns (n: nat)
    requires start <= |input| && Shallow(p, input, start, most)
    ensures SearchAfter(p, input, start, n).None?
  {
    hide Shallow, Next, Onward;
    var f := Frontier(Started(start, []).config, [], 0);
    assert After(p, input, Started(start, []), 0) == Running(f.here);
    EndsAll(p, input, start, most);
    var m := EndsFrom(p, input, start, [], f.here);
    n := Explores(p, input, start, most, [], f, 0, m);
  }

  lemma EndsAll(p: Program, input: seq<u16>, start: nat, most: nat)
    requires start <= |input| && Shallow(p, input, start, most)
    ensures RunEnds(p, input, start, [])
  {}

  // ----- enough storage -----

  /** A search holds no more than one place for each instruction it took. */
  ghost predicate Small(f: Frontier, n: nat) {
    |f.aside| <= n && f.trail <= n && forall i :: 0 <= i < |f.aside| ==> f.aside[i].trail <= n
  }

  lemma {:induction false} SearchSmall(p: Program, input: seq<u16>, start: nat, n: nat)
    requires start <= |input| && SearchAfter(p, input, start, n).Some?
    ensures Small(SearchAfter(p, input, start, n).value, n)
  {
    hide Fetch, Perform;
    if n > 0 { SearchSmall(p, input, start, n - 1); }
  }

  /** Every place the search is at, or has put aside, some decisions lead to. */
  ghost predicate Reachable(p: Program, input: seq<u16>, start: nat, c: Config)
    requires start <= |input|
  {
    exists path :: Reaches(p, input, start, path, c)
  }

  ghost predicate AllReachable(p: Program, input: seq<u16>, start: nat, f: Frontier)
    requires start <= |input|
  {
    Reachable(p, input, start, f.here) && forall i :: 0 <= i < |f.aside| ==> Reachable(p, input, start, f.aside[i].resume)
  }

  lemma {:induction false} SearchReachable(p: Program, input: seq<u16>, start: nat, n: nat)
    requires start <= |input| && SearchAfter(p, input, start, n).Some?
    ensures AllReachable(p, input, start, SearchAfter(p, input, start, n).value)
  {
    hide Fetch, Next, Onward, Reaches;
    if n == 0 {
      StartReaches(p, input, start);
    } else {
      SearchReachable(p, input, start, n - 1);
      OnwardReachable(p, input, start, SearchAfter(p, input, start, n - 1).value);
    }
  }

  lemma StartReaches(p: Program, input: seq<u16>, start: nat)
    requires start <= |input|
    ensures Reaches(p, input, start, [], Started(start, []).config)
  {
    assert After(p, input, Started(start, []), 0) == Running(Started(start, []).config);
  }

  lemma OnwardReachable(p: Program, input: seq<u16>, start: nat, f: Frontier)
    requires start <= |input| && PatternSearch.Inside(input, f) && AllReachable(p, input, start, f) && Onward(p, input, f).Some?
    ensures AllReachable(p, input, start, Onward(p, input, f).value)
  {
    hide Fetch, Next, Onward, Reaches;
    var path :| Reaches(p, input, start, path, f.here);
    NothingPending(p, input, start, path, f.here);
    OneInstruction(p, input, f);
    var o := Next(p, input, f.here);
    if o.Running? {
      ReachesOn(p, input, start, path, f.here, o.config);
    } else if o.Starved? {
      SplitReaches(p, input, start, path, f.here, false);
      SplitReaches(p, input, start, path, f.here, true);
    }
  }

  /** With this much room, a search that is over after `n` instructions never halts. */
  lemma RoomEnough(p: Program, input: seq<u16>, start: nat, n: nat, fuel: nat, choices: nat, undo: nat, k: nat)
    requires start <= |input| && SearchAfter(p, input, start, n).None? && !CanStop(p, input, start)
    requires n <= fuel && n <= choices && n <= undo
    ensures !Halts(p, input, start, k, fuel, choices, undo)
  {
    hide Fetch, Next, Onward, Reaches, CanStop, Small;
    if k >= n {
      StaysOver(p, input, start, n, k);
    } else if SearchAfter(p, input, start, k).Some? {
      var f := SearchAfter(p, input, start, k).value;
      SearchSmall(p, input, start, k);
      SearchReachable(p, input, start, k);
      var path :| Reaches(p, input, start, path, f.here);
      SlotsThere(p, input, start, path, f.here);
      SmallFits(p, f, k, choices, undo);
    }
  }

  lemma SmallFits(p: Program, f: Frontier, k: nat, choices: nat, undo: nat)
    requires Small(f, k) && k < choices && k < undo
    requires var c := Fetch(p.code, f.here.pc); c.Plain? && c.instr.Save? ==> c.instr.slot < MAX_SLOTS
    ensures !OutOfRoom(p, f, choices, undo)
  {
    hide Fetch;
  }

  /** A capture that is reached goes to a slot there is, or the run could stop. */
  lemma SlotsThere(p: Program, input: seq<u16>, start: nat, path: seq<bool>, c: Config)
    requires start <= |input| && Reaches(p, input, start, path, c) && c.position <= |input| && !CanStop(p, input, start)
    ensures var f := Fetch(p.code, c.pc); f.Plain? && f.instr.Save? ==> f.instr.slot < MAX_SLOTS
  {
    hide Fetch, CanStop, Reaches;
    var f := Fetch(p.code, c.pc);
    if f.Plain? && f.instr.Save? && f.instr.slot >= MAX_SLOTS {
      assert Next(p, input, c).Stopped?;
      Stops(p, input, start, path, c);
    }
  }

  // ----- compiled trees -----

  ghost predicate NeverHalted(p: Program, input: seq<u16>, start: nat, fuel: nat, choices: nat, undo: nat)
    requires start <= |input|
  {
    forall n: nat :: !Halts(p, input, start, n, fuel, choices, undo)
  }

  /** With this much fuel and storage, or more, the search is never cut short. */
  ghost predicate Suffices(p: Program, input: seq<u16>, start: nat, enough: nat)
    requires start <= |input|
  {
    forall fuel: nat, choices: nat, undo: nat :: enough <= fuel && enough <= choices && enough <= undo ==>
      NeverHalted(p, input, start, fuel, choices, undo)
  }

  lemma CompiledShallow(t: Regex, flags: Flags, names: seq<byte>, input: seq<u16>, start: nat)
    requires Proper(t) && |Code(t)| <= FAR && start <= |input| && Terminating(t)
    ensures Shallow(Compiled(t, flags, names), input, start, Choices(t, |input|))
  {
    hide Runs, Code, After, Terminating, Choices, Compiled;
    var p := Compiled(t, flags, names);
    forall d: seq<bool> ensures RunEnds(p, input, start, d) {
      var n := CompiledEnds(t, flags, names, input, start, d);
    }
    forall d: seq<bool>, n: nat | |d| >= Choices(t, |input|) ensures !After(p, input, Started(start, d), n).Starved? {
      var m := CompiledEnds(t, flags, names, input, start, d);
      RunsFed(flags, input, t, Opening(start), d);
      if After(p, input, Started(start, d), n).Starved? { OneEnding(p, input, Started(start, d), m, n); }
    }
  }

  /** For a tree whose unbounded repetitions move forward, some fuel and storage make
      every search decide: it finds the first match, or there is none. */
  lemma SearchDecides(t: Regex, flags: Flags, names: seq<byte>, input: seq<u16>, start: nat) returns (enough: nat)
    requires Proper(t) && |Code(t)| <= FAR && start <= |input| && Terminating(t)
    ensures Suffices(Compiled(t, flags, names), input, start, enough)
  {
    hide Code, Terminating, Choices, Compiled, Shallow, CanStop, Halts, Onward;
    var p := Compiled(t, flags, names);
    CompiledShallow(t, flags, names, input, start);
    CompiledNeverStops(t, flags, names, input, start);
    enough := SearchEnds(p, input, start, Choices(t, |input|));
    forall fuel: nat, choices: nat, undo: nat | enough <= fuel && enough <= choices && enough <= undo
      ensures NeverHalted(p, input, start, fuel, choices, undo)
    {
      forall n: nat ensures !Halts(p, input, start, n, fuel, choices, undo) {
        RoomEnough(p, input, start, enough, fuel, choices, undo, n);
      }
    }
  }

  // ----- a loop that goes nowhere -----

  /** `(?:a?)*` */
  const IDLE_LOOP := Repeat(Repeat(Atom(Char(0x61)), 0, Some(1), false), 0, None, false)

  lemma IdleCode()
    ensures Proper(IDLE_LOOP) && !Terminating(IDLE_LOOP)
    ensures Code(IDLE_LOOP) == StarCode(ChainCode(Encoded(Char(0x61)), 1, false), false)
    ensures |Encoded(Char(0x61))| == 3 && |ChainCode(Encoded(Char(0x61)), 0, false)| == 0
  {
    var a := Encoded(Char(0x61));
    var body := Code(IDLE_LOOP.body);
    assert Copies(a, 0) == [] && body == [] + ChainCode(a, 1, false) == ChainCode(a, 1, false);
    assert Copies(body, 0) == [] && Code(IDLE_LOOP) == [] + StarCode(body, false) == StarCode(body, false);
  }

  lemma IdleFetches(flags: Flags)
    ensures var code := Compiled(IDLE_LOOP, flags, []).code;
            && Fetch(code, 0) == Split(5, 16) && Fetch(code, 5) == Split(10, 13)
            && Fetch(code, 10) == Plain(Char(0x61), 3) && Fetch(code, 13) == Jump(0)
  {
    IdleCode();
    CodePlaced(IDLE_LOOP, flags, []);
    hide Fetch, Placed, Compiled, Code, Encoded, StarCode, ChainCode, SplitBytes, JumpBytes;
    var code, a := Compiled(IDLE_LOOP, flags, []).code, Encoded(Char(0x61));
    var body := ChainCode(a, 1, false);
    StarPlaced(code, 0, body, false);
    ChainPlaced(code, 5, a, 1, false);
    FetchesSplit(code, 0, 4, 15);
    FetchesSplit(code, 5, 4, 7);
    Fetches(code, 10, Char(0x61));
    FetchesJump(code, 13, -14);
  }

  /** At the end of the input the loop comes round with one more branch put aside. */
  lemma IdleRound(flags: Flags, f: Frontier)
    requires PatternSearch.Inside([], f) && f.here.pc == 0 && f.here.pending == []
    ensures var p := Compiled(IDLE_LOOP, flags, []);
            var g := Frontier(f.here, f.aside + [Aside(f.here.(pc := 16), f.trail)], f.trail);
            && PatternSearch.Inside([], g)
            && var one := Onward(p, [], f);
            && one.Some?
            && var two := Onward(p, [], one.value);
            && two.Some?
            && var three := Onward(p, [], two.value);
            three.Some? && Onward(p, [], three.value) == Some(g)
  {
    hide Fetch, Compiled;
    IdleFetches(flags);
    var p := Compiled(IDLE_LOOP, flags, []);
    var aside := f.aside + [Aside(f.here.(pc := 16), f.trail)];
    var one := Frontier(f.here.(pc := 5), aside, f.trail);
    assert Onward(p, [], f) == Some(one);
    var two := Frontier(f.here.(pc := 10), aside + [Aside(f.here.(pc := 13), f.trail)], f.trail);
    assert Onward(p, [], one) == Some(two);
    var three := Frontier(f.here.(pc := 13), aside, f.trail);
    assert two.aside[..|aside|] == aside;
    assert Onward(p, [], two) == Some(three);
  }

  lemma {:induction false} IdleGoesOn(flags: Flags, rounds: nat)
    ensures var s := SearchAfter(Compiled(IDLE_LOOP, flags, []), [], 0, 4 * rounds);
            s.Some? && s.value.here.pc == 0 && s.value.here.pending == []
  {
    hide Compiled, Onward;
    if rounds > 0 {
      IdleGoesOn(flags, rounds - 1);
      var p, n := Compiled(IDLE_LOOP, flags, []), 4 * (rounds - 1);
      IdleRound(flags, SearchAfter(p, [], 0, n).value);
      assert SearchAfter(p, [], 0, n + 1).Some? && SearchAfter(p, [], 0, n + 2).Some? && SearchAfter(p, [], 0, n + 3).Some?;
    }
  }

  /** No fuel and no storage is enough for a loop whose body can match nothing. */
  lemma IdleLoopNeverDecides(flags: Flags, fuel: nat, choices: nat, undo: nat)
    ensures !NeverHalted(Compiled(IDLE_LOOP, flags, []), [], 0, fuel, choices, undo)
  {
    hide Compiled;
    var p := Compiled(IDLE_LOOP, flags, []);
    IdleGoesOn(flags, fuel);
    if SearchAfter(p, [], 0, fuel).None? { StaysOver(p, [], 0, fuel, 4 * fuel); }
    assert Halts(p, [], 0, fuel, fuel, choices, undo);
  }
}
