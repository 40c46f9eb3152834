/** Depth-first search over the splits of a program, in priority order. */
module PatternSearch {
  import opened Words
  import opened PatternPrograms

  /** A branch put aside: where it resumes, with the captures it resumes with. */
  datatype Branch = Branch(path: seq<bool>, pc: nat, position: nat, slots: Slots)

  function Resume(b: Branch): Config { Config(b.pc, b.position, b.slots, []) }

  /** Exactly these decisions lead to `c`. */
  ghost predicate Reaches(p: Program, input: seq<u16>, start: nat, path: seq<bool>, c: Config)
    requires start <= |input|
  {
    c.pending == [] && exists n: nat :: After(p, input, Started(start, path), n) == Running(c)
  }

  ghost predicate Prefix(a: seq<bool>, b: seq<bool>) { |a| <= |b| && b[..|a|] == a }

  ghost predicate ReachesAll(p: Program, input: seq<u16>, start: nat, stack: seq<Branch>)
    requires start <= |input|
  {
    forall i :: 0 <= i < |stack| ==> Reaches(p, input, start, stack[i].path, Resume(stack[i]))
  }

  ghost predicate Open(stack: seq<Branch>, d: seq<bool>) {
    exists i :: 0 <= i < |stack| && Prefix(stack[i].path, d)
  }

  /** Every match still to be found lies under the current path or an open branch. */
  ghost predicate Covers(p: Program, input: seq<u16>, start: nat, path: seq<bool>, stack: seq<Branch>)
    requires start <= |input|
  {
    forall d, s :: Accepts(p, input, start, d, s) ==> Prefix(path, d) || Open(stack, d)
  }

  /** The branches come later the deeper they lie. */
  ghost predicate Descending(path: seq<bool>, stack: seq<Branch>) {
    && (forall i :: 0 <= i < |stack| ==> Before(path, stack[i].path))
    && (forall i, j :: 0 <= i < j < |stack| ==> Before(stack[j].path, stack[i].path))
  }

  ghost predicate Searching(p: Program, input: seq<u16>, start: nat, path: seq<bool>, c: Config, stack: seq<Branch>)
    requires start <= |input|
  {
    && Reaches(p, input, start, path, c)
    && ReachesAll(p, input, start, stack)
    && Covers(p, input, start, path, stack)
    && Descending(path, stack)
  }

  lemma BeforeExtends(a: seq<bool>, b: seq<bool>, x: seq<bool>, y: seq<bool>)
    requires Before(a, b)
    ensures Before(a + x, b + y)
  {
    var k :| 0 <= k < |a| && k < |b| && !a[k] && b[k] && a[..k] == b[..k];
    assert (a + x)[..k] == a[..k] && (b + y)[..k] == b[..k];
    assert !(a + x)[k] && (b + y)[k];
  }

  lemma PrefixSplits(a: seq<bool>, b: seq<bool>)
    requires Prefix(a, b)
    ensures b == a + b[|a|..]
  {}

  /** With more decisions, the same place is reached with those pending. */
  lemma ReachesMore(p: Program, input: seq<u16>, start: nat, path: seq<bool>, c: Config, extra: seq<bool>) returns (n: nat)
    requires start <= |input| && Reaches(p, input, start, path, c)
    ensures After(p, input, Started(start, path + extra), n) == Running(More(c, extra))
    ensures c.position <= |input|
  {
    hide Next;
    n :| After(p, input, Started(start, path), n) == Running(c);
    AfterMore(p, input, Started(start, path).config, extra, n);
    assert More(Started(start, path).config, extra) == Started(start, path + extra).config;
  }

  lemma ReachesNext(p: Program, input: seq<u16>, start: nat, path: seq<bool>, n: nat, c: Config)
    requires start <= |input| && After(p, input, Started(start, path), n) == Running(c)
    ensures After(p, input, Started(start, path), n + 1) == Next(p, input, c)
  {
    hide Next;
    AfterSum(p, input, Started(start, path), n, 1);
    assert After(p, input, Running(c), 1) == After(p, input, Next(p, input, c), 0);
  }

  lemma StartsSearching(p: Program, input: seq<u16>, start: nat)
    requires start <= |input|
    ensures Searching(p, input, start, [], Started(start, []).config, [])
  {
    assert After(p, input, Started(start, []), 0) == Running(Started(start, []).config);
  }

  /** An instruction that does not branch. */
  lemma Moves(p: Program, input: seq<u16>, start: nat, path: seq<bool>, c: Config, stack: seq<Branch>, c': Config)
    requires start <= |input| && c.position <= |input|
    requires Searching(p, input, start, path, c, stack) && Next(p, input, c) == Running(c') && c'.pending == []
    ensures Searching(p, input, start, path, c', stack)
  {
    hide Next, Covers, Descending, ReachesAll;
    var n :| After(p, input, Started(start, path), n) == Running(c);
    ReachesNext(p, input, start, path, n, c);
  }

  /** A run under `path` goes on from where `path` leads. */
  lemma Continues(p: Program, input: seq<u16>, start: nat, path: seq<bool>, c: Config, d: seq<bool>, s: Slots)
    requires start <= |input| && Reaches(p, input, start, path, c) && Prefix(path, d) && Accepts(p, input, start, d, s)
    ensures c.position <= |input|
    ensures var o := Next(p, input, More(c, d[|path|..])); o.Running? || o == Matched(s, [])
  {
    hide Next;
    PrefixSplits(path, d);
    var n := ReachesMore(p, input, start, path, c, d[|path|..]);
    ReachesNext(p, input, start, d, n, More(c, d[|path|..]));
    var m: nat :| After(p, input, Started(start, d), m) == Matched(s, []);
    if !After(p, input, Started(start, d), n + 1).Running? { OneEnding(p, input, Started(start, d), m, n + 1); }
  }

  lemma SplitReaches(p: Program, input: seq<u16>, start: nat, path: seq<bool>, c: Config, choice: bool)
    requires start <= |input| && Reaches(p, input, start, path, c) && Fetch(p.code, c.pc).Split?
    ensures var f := Fetch(p.code, c.pc);
            Reaches(p, input, start, path + [choice], c.(pc := if choice then f.second else f.first))
  {
    hide Fetch;
    var n := ReachesMore(p, input, start, path, c, [choice]);
    ReachesNext(p, input, start, path + [choice], n, More(c, [choice]));
    assert More(c, [choice]).pending == [choice];
  }

  function Pushed(path: seq<bool>, c: Config, second: nat): Branch { Branch(path + [true], second, c.position, c.slots) }

  /** A split: the first branch now, the second put aside. */
  lemma Splits(p: Program, input: seq<u16>, start: nat, path: seq<bool>, c: Config, stack: seq<Branch>)
    requires start <= |input| && Searching(p, input, start, path, c, stack) && Fetch(p.code, c.pc).Split?
    ensures var f := Fetch(p.code, c.pc);
            Searching(p, input, start, path + [false], c.(pc := f.first), stack + [Pushed(path, c, f.second)])
  {
    hide Fetch;
    var f := Fetch(p.code, c.pc);
    SplitReaches(p, input, start, path, c, false);
    SplitReaches(p, input, start, path, c, true);
    SplitDescends(path, stack, Pushed(path, c, f.second));
    SplitCovers(p, input, start, path, c, stack, Pushed(path, c, f.second));
    hide Reaches, Covers, Descending;
    assert c.(pc := f.second) == Resume(Pushed(path, c, f.second));
  }

  lemma SplitDescends(path: seq<bool>, stack: seq<Branch>, b: Branch)
    requires Descending(path, stack) && b.path == path + [true]
    ensures Descending(path + [false], stack + [b])
  {
    assert Before(path + [false], b.path) by {
      var k := |path|;
      assert !(path + [false])[k] && b.path[k] && (path + [false])[..k] == b.path[..k];
    }
    forall i | 0 <= i < |stack|
      ensures Before(path + [false], stack[i].path) && Before(b.path, stack[i].path)
    {
      BeforeExtends(path, stack[i].path, [false], []);
      BeforeExtends(path, stack[i].path, [true], []);
      assert stack[i].path + [] == stack[i].path;
    }
  }

  lemma SplitCovers(p: Program, input: seq<u16>, start: nat, path: seq<bool>, c: Config, stack: seq<Branch>, b: Branch)
    requires start <= |input| && Reaches(p, input, start, path, c) && Fetch(p.code, c.pc).Split?
    requires Covers(p, input, start, path, stack) && b.path == path + [true]
    ensures Covers(p, input, start, path + [false], stack + [b])
  {
    assert c.pending == [];
    hide Fetch, Accepts, Reaches;
    forall d, s | Accepts(p, input, start, d, s)
      ensures Prefix(path + [false], d) || Open(stack + [b], d)
    {
      if Open(stack, d) {
        StillOpen(stack, b, d);
      } else {
        var rest := d[|path|..];
        assert d == path ==> rest == [];
        Continues(p, input, start, path, c, d, s);
        OneMore(path, d);
        if d[|path|] {
          assert (stack + [b])[|stack|] == b;
          assert Prefix((stack + [b])[|stack|].path, d);
        }
      }
    }
  }

  lemma OneMore(path: seq<bool>, d: seq<bool>)
    requires Prefix(path, d) && d != path
    ensures |d| > |path| && Prefix(path + [d[|path|]], d)
  {}

  lemma StillOpen(stack: seq<Branch>, b: Branch, d: seq<bool>)
    requires Open(stack, d)
    ensures Open(stack + [b], d)
  {
    var i :| 0 <= i < |stack| && Prefix(stack[i].path, d);
    assert (stack + [b])[i] == stack[i];
  }

  /** A run that cannot go on under any decisions. */
  ghost predicate DeadEnd(p: Program, input: seq<u16>, c: Config) {
    c.position <= |input| && (Next(p, input, c).Failed? || Next(p, input, c).Stopped?)
  }

  /** Nothing matches under a dead end. */
  lemma NothingUnder(p: Program, input: seq<u16>, start: nat, path: seq<bool>, c: Config, d: seq<bool>, s: Slots)
    requires start <= |input| && Reaches(p, input, start, path, c) && DeadEnd(p, input, c) && Prefix(path, d)
    ensures !Accepts(p, input, start, d, s)
  {
    hide Next;
    if Accepts(p, input, start, d, s) {
      Continues(p, input, start, path, c, d, s);
      NextMore(p, input, c, d[|path|..]);
    }
  }

  /** Backtracking to the branch put aside last. */
  lemma Backs(p: Program, input: seq<u16>, start: nat, path: seq<bool>, c: Config, stack: seq<Branch>)
    requires start <= |input| && Searching(p, input, start, path, c, stack) && DeadEnd(p, input, c) && stack != []
    ensures var top := |stack| - 1; Searching(p, input, start, stack[top].path, Resume(stack[top]), stack[..top])
  {
    var top := |stack| - 1;
    hide Accepts, Before, DeadEnd, Reaches, Prefix;
    forall d, s | Accepts(p, input, start, d, s)
      ensures Prefix(stack[top].path, d) || Open(stack[..top], d)
    {
      if Prefix(path, d) { NothingUnder(p, input, start, path, c, d, s); }
      var i :| 0 <= i < |stack| && Prefix(stack[i].path, d);
      if i < top { assert stack[..top][i] == stack[i]; }
    }
  }

  /** With nothing put aside, a dead end is a proof that nothing matches. */
  lemma Exhausted(p: Program, input: seq<u16>, start: nat, path: seq<bool>, c: Config)
    requires start <= |input| && Searching(p, input, start, path, c, []) && DeadEnd(p, input, c)
    ensures NoMatch(p, input, start)
  {
    hide Accepts, DeadEnd, Reaches, Prefix;
    forall d, s ensures !Accepts(p, input, start, d, s) {
      if Accepts(p, input, start, d, s) { NothingUnder(p, input, start, path, c, d, s); }
    }
  }

  /** The first match reached is the first in priority order. */
  lemma Finds(p: Program, input: seq<u16>, start: nat, path: seq<bool>, c: Config, stack: seq<Branch>)
    requires start <= |input| && Searching(p, input, start, path, c, stack) && Fetch(p.code, c.pc).Match?
    ensures First(p, input, start, path, c.slots[1 := Clip(c.position)])
  {
    hide Fetch;
    var slots: Slots := c.slots[1 := Clip(c.position)];
    var n :| After(p, input, Started(start, path), n) == Running(c);
    ReachesNext(p, input, start, path, n, c);
    assert Accepts(p, input, start, path, slots);
    forall d, s | Accepts(p, input, start, d, s)
      ensures (d == path && s == slots) || Before(path, d)
    {
      if Prefix(path, d) {
        Continues(p, input, start, path, c, d, s);
        PrefixSplits(path, d);
        assert d[|path|..] == [];
      } else {
        var i :| 0 <= i < |stack| && Prefix(stack[i].path, d);
        PrefixSplits(stack[i].path, d);
        BeforeExtends(path, stack[i].path, [], d[|stack[i].path|..]);
        assert path + [] == path;
      }
    }
  }

  lemma Stops(p: Program, input: seq<u16>, start: nat, path: seq<bool>, c: Config)
    requires start <= |input| && Reaches(p, input, start, path, c) && c.position <= |input| && Next(p, input, c).Stopped?
    ensures CanStop(p, input, start)
  {
    hide Next;
    var n :| After(p, input, Started(start, path), n) == Running(c);
    ReachesNext(p, input, start, path, n, c);
  }

  // ----- the search, one instruction at a time -----

  /** A branch put aside, and how many captures had been recorded by then. */
  datatype Aside = Aside(resume: Config, trail: nat)

  /** A search that copies its captures into every branch it puts aside, and only counts what a trail would hold. */
  datatype Frontier = Frontier(here: Config, aside: seq<Aside>, trail: nat)

  predicate Inside(input: seq<u16>, f: Frontier) {
    f.here.position <= |input| && forall i :: 0 <= i < |f.aside| ==> f.aside[i].resume.position <= |input|
  }

  /** The search one instruction later, unless it is over. */
  function Onward(p: Program, input: seq<u16>, f: Frontier): (r: Option<Frontier>)
    requires Inside(input, f)
    ensures r.Some? ==> Inside(input, r.value)
  {
    match Fetch(p.code, f.here.pc)
    case Match => None
    case Unknown => None
    case Jump(target) => Some(f.(here := f.here.(pc := target)))
    case Split(first, second) =>
      Some(f.(here := f.here.(pc := first), aside := f.aside + [Aside(f.here.(pc := second), f.trail)]))
    case Plain(instr, width) =>
      match Perform(p.flags, input, instr, f.here.position, f.here.slots)
      case Advance(position, slots) =>
        Some(f.(here := Config(f.here.pc + width, position, slots, []), trail := f.trail + if instr.Save? then 1 else 0))
      case Fail => TakenBack(f)
      case Stop => None
  }

  function TakenBack(f: Frontier): Option<Frontier> {
    if f.aside == [] then None else
    var top := |f.aside| - 1;
    Some(Frontier(f.aside[top].resume, f.aside[..top], f.aside[top].trail))
  }

  /** The search after exactly `n` instructions, when it lasts that long. */
  function SearchAfter(p: Program, input: seq<u16>, start: nat, n: nat): (r: Option<Frontier>)
    requires start <= |input|
    ensures r.Some? ==> Inside(input, r.value)
  {
    if n == 0 then Some(Frontier(Started(start, []).config, [], 0)) else
    match SearchAfter(p, input, start, n - 1)
    case None => None
    case Some(f) => Onward(p, input, f)
  }

  /** The next instruction needs a place that storage of these sizes does not have. */
  predicate OutOfRoom(p: Program, f: Frontier, choices: nat, undo: nat) {
    match Fetch(p.code, f.here.pc)
    case Split(_, _) => |f.aside| >= choices
    case Plain(instr, _) => instr.Save? && (instr.slot >= MAX_SLOTS || f.trail >= undo)
    case _ => false
  }

  /** After `n` instructions the search is not over, and has no fuel or no room to go on. */
  ghost predicate Halts(p: Program, input: seq<u16>, start: nat, n: nat, fuel: nat, choices: nat, undo: nat)
    requires start <= |input|
  {
    var f := SearchAfter(p, input, start, n);
    n <= fuel && f.Some? && (n == fuel || OutOfRoom(p, f.value, choices, undo))
  }

  /** A search that is over stays over. */
  lemma {:induction false} StaysOver(p: Program, input: seq<u16>, start: nat, n: nat, later: nat)
    requires start <= |input| && SearchAfter(p, input, start, n).None? && n <= later
    ensures SearchAfter(p, input, start, later).None?
    decreases later
  {
    if n < later { StaysOver(p, input, start, n, later - 1); }
  }

  /** The search has not halted within its first `n` instructions. */
  ghost predicate Unhalted(p: Program, input: seq<u16>, start: nat, n: nat, fuel: nat, choices: nat, undo: nat)
    requires start <= |input|
  {
    forall k: nat :: k < n ==> !Halts(p, input, start, k, fuel, choices, undo)
  }

  lemma NoneHalted(p: Program, input: seq<u16>, start: nat, fuel: nat, choices: nat, undo: nat)
    requires start <= |input|
    ensures Unhalted(p, input, start, 0, fuel, choices, undo)
  {}

  lemma OneMoreUnhalted(p: Program, input: seq<u16>, start: nat, n: nat, fuel: nat, choices: nat, undo: nat)
    requires start <= |input| && Unhalted(p, input, start, n, fuel, choices, undo)
    requires !Halts(p, input, start, n, fuel, choices, undo)
    ensures Unhalted(p, input, start, n + 1, fuel, choices, undo)
  {
    hide Halts;
  }

  /** A search that is over without having halted never halts. */
  lemma NeverHalts(p: Program, input: seq<u16>, start: nat, n: nat, fuel: nat, choices: nat, undo: nat)
    requires start <= |input| && SearchAfter(p, input, start, n).None? && Unhalted(p, input, start, n, fuel, choices, undo)
    ensures forall k: nat :: !Halts(p, input, start, k, fuel, choices, undo)
  {
    forall k: nat ensures !Halts(p, input, start, k, fuel, choices, undo) {
      if k >= n { StaysOver(p, input, start, n, k); }
    }
  }

  // ----- the undo trail -----

  datatype Choice = Choice(pc: nat, position: nat, undo: nat)

  type Saved = (byte, u32)

  predicate SlotsExist(trail: seq<Saved>) { forall i :: 0 <= i < |trail| ==> trail[i].0 < MAX_SLOTS }

  /** The captures before the entries of the trail from `keep` on were recorded. */
  function Unwound(slots: Slots, trail: seq<Saved>, keep: nat): Slots
    requires SlotsExist(trail)
    decreases |trail|
  {
    if |trail| <= keep then slots
    else
      var last := |trail| - 1;
      Unwound(slots[trail[last].0 := trail[last].1], trail[..last], keep)
  }

  /** The choices on the stack resume the branches put aside, once the trail is unwound. */
  ghost predicate Mirrors(choices: seq<Choice>, trail: seq<Saved>, slots: Slots, stack: seq<Branch>) {
    && SlotsExist(trail) && |choices| == |stack|
    && (forall i :: 0 <= i < |choices| ==> Restores(choices[i], trail, slots, stack[i]))
    && (forall i, j :: 0 <= i < j < |choices| ==> choices[i].undo <= choices[j].undo)
  }

  ghost predicate Restores(c: Choice, trail: seq<Saved>, slots: Slots, b: Branch)
    requires SlotsExist(trail)
  {
    c.pc == b.pc && c.position == b.position && c.undo <= |trail| && Unwound(slots, trail, c.undo) == b.slots
  }

  /** Unwinding in two stages. */
  lemma {:induction false} UnwoundTwice(slots: Slots, trail: seq<Saved>, keep: nat, less: nat)
    requires SlotsExist(trail) && less <= keep <= |trail|
    ensures Unwound(slots, trail, less) == Unwound(Unwound(slots, trail, keep), trail[..keep], less)
    decreases |trail|
  {
    if |trail| > keep {
      var last := |trail| - 1;
      UnwoundTwice(slots[trail[last].0 := trail[last].1], trail[..last], keep, less);
      assert trail[..last][..keep] == trail[..keep];
    } else {
      assert trail[..keep] == trail;
    }
  }

  /** Recording a capture and its previous value keeps every branch. */
  lemma RecordMirrors(choices: seq<Choice>, trail: seq<Saved>, slots: Slots, stack: seq<Branch>, slot: byte, value: u32)
    requires Mirrors(choices, trail, slots, stack) && slot < MAX_SLOTS
    ensures Mirrors(choices, trail + [(slot, slots[slot])], slots[slot := value], stack)
  {
    var longer := trail + [(slot, slots[slot])];
    assert longer[..|trail|] == trail;
    forall i | 0 <= i < |choices| ensures Restores(choices[i], longer, slots[slot := value], stack[i]) {
      assert Restores(choices[i], trail, slots, stack[i]);
      assert slots[slot := value][slot := slots[slot]] == slots;
    }
  }

  lemma PushMirrors(choices: seq<Choice>, trail: seq<Saved>, slots: Slots, stack: seq<Branch>, c: Choice, b: Branch)
    requires Mirrors(choices, trail, slots, stack)
    requires c == Choice(b.pc, b.position, |trail|) && b.slots == slots
    ensures Mirrors(choices + [c], trail, slots, stack + [b])
  {
    hide Unwound;
    assert Unwound(slots, trail, |trail|) == slots by { UnwoundNothing(slots, trail); }
    assert Restores(c, trail, slots, b);
  }

  lemma UnwoundNothing(slots: Slots, trail: seq<Saved>)
    requires SlotsExist(trail)
    ensures Unwound(slots, trail, |trail|) == slots
  {}

  /** Taking the top choice back: its captures are restored, and the others still can be. */
  lemma PopMirrors(choices: seq<Choice>, trail: seq<Saved>, slots: Slots, stack: seq<Branch>)
    requires Mirrors(choices, trail, slots, stack) && choices != []
    ensures var top := |choices| - 1;
            var keep := choices[top].undo;
            && keep <= |trail| && Unwound(slots, trail, keep) == stack[top].slots
            && Mirrors(choices[..top], trail[..keep], Unwound(slots, trail, keep), stack[..top])
  {
    hide Unwound;
    var top := |choices| - 1;
    var keep := choices[top].undo;
    assert Restores(choices[top], trail, slots, stack[top]);
    forall i | 0 <= i < top
      ensures Restores(choices[i], trail[..keep], Unwound(slots, trail, keep), stack[i])
    {
      assert Restores(choices[i], trail, slots, stack[i]);
      UnwoundTwice(slots, trail, keep, choices[i].undo);
    }
  }
}
