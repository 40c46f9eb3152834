/** The backtracking matcher, in storage its caller lends it. */
module PatternMatcher {
  import opened Words
  import opened PatternPrograms
  import opened PatternSearch

  /** The matcher's registers: how many choices and trail entries are in use. */
  datatype Cursor = Cursor(pc: nat, position: nat, slots: Slots, choices: nat, undo: nat)

  function Here(s: Cursor): Config { Config(s.pc, s.position, s.slots, []) }

  /** The decisions that lead to the cursor, the branches put aside, and the instructions taken. */
  datatype Trace = Trace(path: seq<bool>, stack: seq<Branch>, steps: nat)

  /** The cursor and the choices in use, as a search that copies captures. */
  ghost function Copied(s: Cursor, stack: seq<Branch>, choices: seq<Choice>): Frontier
    requires |stack| == |choices|
  {
    Frontier(Here(s), seq(|stack|, i requires 0 <= i < |stack| => Aside(Resume(stack[i]), choices[i].undo)), s.undo)
  }

  /** How one turn of the search comes out. */
  datatype Turn = GoesOn | Over(found: Option<Slots>) | Short

  /** What a search borrows: choices, a trail, and a flag for giving up. */
  class Matcher {
    const choices: array<Choice>
    const undo: array<Saved>
    var halted: bool

    constructor (choices: array<Choice>, undo: array<Saved>)
      ensures this.choices == choices && this.undo == undo && !halted
    {
      this.choices, this.undo, halted := choices, undo, false;
    }

    /** The search under way: where it is, and what it has put aside. */
    ghost predicate Holds(p: Program, input: seq<u16>, start: nat, s: Cursor, t: Trace)
      requires start <= |input|
      reads choices, undo
    {
      && s.choices <= choices.Length && s.undo <= undo.Length && s.position <= |input|
      && Searching(p, input, start, t.path, Here(s), t.stack)
      && Mirrors(choices[..s.choices], undo[..s.undo], s.slots, t.stack)
      && SearchAfter(p, input, start, t.steps) == Some(Copied(s, t.stack, choices[..s.choices]))
    }

    /** The instruction at the cursor needs room that is not left. */
    ghost predicate Full(p: Program, s: Cursor) {
      var f := Fetch(p.code, s.pc);
      || (f.Split? && s.choices >= choices.Length)
      || (f.Plain? && f.instr.Save? && (f.instr.slot >= MAX_SLOTS || s.undo >= undo.Length))
    }

    /** What a search under way says about the next instruction. */
    lemma Sees(p: Program, input: seq<u16>, start: nat, s: Cursor, t: Trace, fuel: nat)
      requires start <= |input| && Holds(p, input, start, s, t) && t.steps <= fuel
      ensures s.position <= |input| && Searching(p, input, start, t.path, Here(s), t.stack) && |t.stack| == s.choices
      ensures Halts(p, input, start, t.steps, fuel, choices.Length, undo.Length) <==> t.steps == fuel || Full(p, s)
    {
      hide Searching, Mirrors, Fetch, SearchAfter;
      SameDepth(choices[..s.choices], undo[..s.undo], s.slots, t.stack);
    }

    /** Another place, with nothing put aside or taken back. */
    lemma Steps(p: Program, input: seq<u16>, start: nat, s: Cursor, t: Trace, s': Cursor)
      requires start <= |input| && Holds(p, input, start, s, t) && s'.position <= |input|
      requires s' == s.(pc := s'.pc, position := s'.position) && Searching(p, input, start, t.path, Here(s'), t.stack)
      requires ReadsOn(p, input, s, s')
      ensures Holds(p, input, start, s', t.(steps := t.steps + 1))
    {
      hide Searching, Mirrors, Fetch, Copied, ReadsOn;
      SameDepth(choices[..s.choices], undo[..s.undo], s.slots, t.stack);
      StepCopies(p, input, s, t.stack, choices[..s.choices], s');
    }

    /** Where the search ends, it has not halted and never will. */
    lemma Ends(p: Program, input: seq<u16>, start: nat, s: Cursor, t: Trace, fuel: nat)
      requires start <= |input| && Holds(p, input, start, s, t) && t.steps < fuel
      requires Unhalted(p, input, start, t.steps, fuel, choices.Length, undo.Length) && !Full(p, s)
      requires EndsAt(p, input, s) || (DiesAt(p, input, s) && s.choices == 0)
      ensures forall n: nat :: !Halts(p, input, start, n, fuel, choices.Length, undo.Length)
    {
      hide Searching, Mirrors, Fetch, Perform, Halts, Unhalted, Copied, DiesAt, EndsAt, Full;
      Sees(p, input, start, s, t, fuel);
      OneMoreUnhalted(p, input, start, t.steps, fuel, choices.Length, undo.Length);
      EndCopies(p, input, s, t.stack, choices[..s.choices]);
      NeverHalts(p, input, start, t.steps + 1, fuel, choices.Length, undo.Length);
    }

    /** Put the second branch aside and take the first. */
    method TakeSplit(p: Program, input: seq<u16>, start: nat, s: Cursor, ghost t: Trace, first: nat, second: nat)
      returns (s': Cursor, ghost t': Trace)
      requires start <= |input| && Holds(p, input, start, s, t)
      requires Fetch(p.code, s.pc) == Split(first, second) && s.choices < choices.Length
      modifies choices
      ensures Holds(p, input, start, s', t') && t'.steps == t.steps + 1
    {
      hide Fetch, Searching, Mirrors, Copied;
      ghost var b := Pushed(t.path, Here(s), second);
      var choice := Choice(second, s.position, s.undo);
      Splits(p, input, start, t.path, Here(s), t.stack);
      PushMirrors(choices[..s.choices], undo[..s.undo], s.slots, t.stack, choice, b);
      SameDepth(choices[..s.choices], undo[..s.undo], s.slots, t.stack);
      SplitCopies(p, input, s, t.stack, choices[..s.choices], first, second, b, choice);
      choices[s.choices] := choice;
      assert choices[..s.choices + 1] == old(choices[..s.choices]) + [choice];
      s' := s.(pc := first, choices := s.choices + 1);
      t' := Trace(t.path + [false], t.stack + [b], t.steps + 1);
    }

    /** Record a capture, and what it was, on the trail. */
    method TakeSave(p: Program, input: seq<u16>, start: nat, s: Cursor, ghost t: Trace, slot: byte, width: nat)
      returns (s': Cursor, ghost t': Trace)
      requires start <= |input| && Holds(p, input, start, s, t)
      requires Fetch(p.code, s.pc) == Plain(Save(slot), width) && slot < MAX_SLOTS && s.undo < undo.Length
      modifies undo
      ensures Holds(p, input, start, s', t') && t'.steps == t.steps + 1
    {
      hide Fetch, Searching, Mirrors, Copied;
      SaveMoves(p, input, start, t.path, Here(s), t.stack);
      RecordMirrors(choices[..s.choices], undo[..s.undo], s.slots, t.stack, slot, Clip(s.position));
      undo[s.undo] := (slot, s.slots[slot]);
      assert undo[..s.undo + 1] == old(undo[..s.undo]) + [(slot, s.slots[slot])];
      s' := s.(pc := s.pc + width, slots := s.slots[slot := Clip(s.position)], undo := s.undo + 1);
      t' := t.(steps := t.steps + 1);
      SaveCopies(p, input, s, t.stack, choices[..s.choices], slot, width, s');
    }

    /** Carry out an instruction that neither branches nor records. */
    method TakePlain(p: Program, input: seq<u16>, start: nat, s: Cursor, ghost t: Trace)
      returns (effect: Effect, s': Cursor, ghost t': Trace)
      requires start <= |input| && Holds(p, input, start, s, t)
      requires Fetch(p.code, s.pc).Plain? && !Fetch(p.code, s.pc).instr.Save?
      ensures effect.Advance? ==> Holds(p, input, start, s', t') && t'.steps == t.steps + 1
      ensures !effect.Advance? ==> s' == s && t' == t
      ensures effect.Fail? ==> DeadEnd(p, input, Here(s)) && DiesAt(p, input, s)
      ensures effect.Stop? ==> CanStop(p, input, start) && EndsAt(p, input, s)
    {
      var width;
      effect, width := Execute(p, input, s.pc, s.position, s.slots);
      PlainMoves(p, input, start, t.path, Here(s), t.stack, effect);
      s', t' := s, t;
      hide Fetch, Perform, Searching, Mirrors, DeadEnd, CanStop;
      if effect.Advance? {
        s', t' := s.(pc := s.pc + width, position := effect.position), t.(steps := t.steps + 1);
        Steps(p, input, start, s, t, s');
      }
    }

    /** Resume the branch put aside last, with its captures. */
    method Backtrack(p: Program, input: seq<u16>, start: nat, s: Cursor, ghost t: Trace)
      returns (s': Cursor, ghost t': Trace)
      requires start <= |input| && Holds(p, input, start, s, t) && DeadEnd(p, input, Here(s)) && s.choices > 0
      requires DiesAt(p, input, s)
      ensures Holds(p, input, start, s', t') && t'.steps == t.steps + 1
    {
      hide Searching, DeadEnd, DiesAt, Unwound, Copied;
      var top := s.choices - 1;
      var choice := choices[top];
      PopMirrors(choices[..s.choices], undo[..s.undo], s.slots, t.stack);
      Backs(p, input, start, t.path, Here(s), t.stack);
      assert Restores(choices[..s.choices][top], undo[..s.undo], s.slots, t.stack[top]);
      hide Mirrors;
      assert choices[..s.choices][..top] == choices[..top];
      assert undo[..s.undo][..choice.undo] == undo[..choice.undo];
      var restored := Unwind(s.slots, s.undo, choice.undo);
      s' := Cursor(choice.pc, choice.position, restored, top, choice.undo);
      t' := Trace(t.stack[top].path, t.stack[..top], t.steps + 1);
      FailCopies(p, input, s, t.stack, choices[..s.choices], s');
      PositionInside(p, input, start, t'.path, Here(s'), t'.stack);
    }

    method Unwind(slots: Slots, recorded: nat, keep: nat) returns (restored: Slots)
      requires keep <= recorded <= undo.Length && SlotsExist(undo[..recorded])
      ensures restored == Unwound(slots, undo[..recorded], keep)
    {
      restored := slots;
      var left := recorded;
      while left > keep
        invariant keep <= left <= recorded
        invariant Unwound(slots, undo[..recorded], keep) == Unwound(restored, undo[..left], keep)
      {
        left := left - 1;
        assert undo[..left + 1][..left] == undo[..left];
        var (slot, previous) := undo[left];
        restored := restored[slot := previous];
      }
    }

    /** One turn of the search: `Short` means that storage ran out. */
    method Step(p: Program, input: seq<u16>, start: nat, s: Cursor, ghost t: Trace)
      returns (turn: Turn, s': Cursor, ghost t': Trace)
      requires start <= |input| && Holds(p, input, start, s, t)
      modifies choices, undo
      ensures turn.Short? <==> Full(p, s)
      ensures turn.GoesOn? ==> Holds(p, input, start, s', t') && t'.steps == t.steps + 1
      ensures turn.Over? ==> Holds(p, input, start, s, t) && (EndsAt(p, input, s) || (DiesAt(p, input, s) && s.choices == 0))
      ensures turn.Over? && turn.found.Some? ==> exists d :: First(p, input, start, d, turn.found.value)
      ensures turn.Over? && turn.found.None? ==> NoMatch(p, input, start) || CanStop(p, input, start)
    {
      hide Fetch, Perform, Searching, Mirrors, SearchAfter, Copied, Accepts, First, NoMatch, CanStop, DeadEnd, DiesAt;
      turn, s', t' := GoesOn, s, t;
      SameDepth(choices[..s.choices], undo[..s.undo], s.slots, t.stack);
      match Fetch(p.code, s.pc)
      case Match =>
        Finds(p, input, start, t.path, Here(s), t.stack);
        return Over(Some(s.slots[1 := Clip(s.position)])), s, t;
      case Split(first, second) =>
        if s.choices >= choices.Length { return Short, s, t; }
        s', t' := TakeSplit(p, input, start, s, t, first, second);
      case Jump(target) =>
        JumpMoves(p, input, start, t.path, Here(s), t.stack);
        Steps(p, input, start, s, t, s.(pc := target));
        s', t' := s.(pc := target), t.(steps := t.steps + 1);
      case Unknown =>
        UnknownStops(p, input, start, t.path, Here(s), t.stack);
        return Over(None), s, t;
      case Plain(instr, width) =>
        if instr.Save? {
          if instr.slot >= MAX_SLOTS || s.undo >= undo.Length { return Short, s, t; }
          s', t' := TakeSave(p, input, start, s, t, instr.slot, width);
        } else {
          var effect;
          effect, s', t' := TakePlain(p, input, start, s, t);
          match effect
          case Stop => return Over(None), s, t;
          case Advance(_, _) =>
          case Fail =>
            if s.choices == 0 {
              Exhausted(p, input, start, t.path, Here(s));
              return Over(None), s, t;
            }
            s', t' := Backtrack(p, input, start, s, t);
        }
    }
  }

  /** The instruction at the cursor fails. */
  predicate DiesAt(p: Program, input: seq<u16>, s: Cursor) {
    var f := Fetch(p.code, s.pc);
    s.position <= |input| && f.Plain? && Perform(p.flags, input, f.instr, s.position, s.slots).Fail?
  }

  lemma SplitCopies(p: Program, input: seq<u16>, s: Cursor, stack: seq<Branch>, choices: seq<Choice>,
                    first: nat, second: nat, b: Branch, choice: Choice)
    requires |stack| == |choices| && Inside(input, Copied(s, stack, choices)) && Fetch(p.code, s.pc) == Split(first, second)
    requires Resume(b) == Here(s).(pc := second) && choice.undo == s.undo
    ensures Onward(p, input, Copied(s, stack, choices)) ==
            Some(Copied(s.(pc := first, choices := s.choices + 1), stack + [b], choices + [choice]))
  {
    hide Fetch;
    assert Copied(s, stack + [b], choices + [choice]).aside == Copied(s, stack, choices).aside + [Aside(Resume(b), choice.undo)];
  }

  lemma SaveCopies(p: Program, input: seq<u16>, s: Cursor, stack: seq<Branch>, choices: seq<Choice>,
                   slot: byte, width: nat, s': Cursor)
    requires |stack| == |choices| && Inside(input, Copied(s, stack, choices))
    requires Fetch(p.code, s.pc) == Plain(Save(slot), width) && slot < MAX_SLOTS
    requires s' == s.(pc := s.pc + width, slots := s.slots[slot := Clip(s.position)], undo := s.undo + 1)
    ensures Onward(p, input, Copied(s, stack, choices)) == Some(Copied(s', stack, choices))
  {
    hide Fetch;
    assert Copied(s', stack, choices).aside == Copied(s, stack, choices).aside;
  }

  lemma FailCopies(p: Program, input: seq<u16>, s: Cursor, stack: seq<Branch>, choices: seq<Choice>, s': Cursor)
    requires |stack| == |choices| && stack != [] && Inside(input, Copied(s, stack, choices)) && DiesAt(p, input, s)
    requires var top := |stack| - 1; Here(s') == Resume(stack[top]) && s'.undo == choices[top].undo
    ensures var top := |stack| - 1;
            Onward(p, input, Copied(s, stack, choices)) == Some(Copied(s', stack[..top], choices[..top]))
  {
    hide Fetch, Perform;
    var top := |stack| - 1;
    assert Copied(s', stack[..top], choices[..top]).aside == Copied(s, stack, choices).aside[..top];
  }

  /** An instruction that neither branches nor records leads from one cursor to the other. */
  predicate ReadsOn(p: Program, input: seq<u16>, s: Cursor, s': Cursor) {
    match Fetch(p.code, s.pc)
    case Jump(target) => s' == s.(pc := target)
    case Plain(instr, width) =>
      && !instr.Save? && s.position <= |input|
      && Perform(p.flags, input, instr, s.position, s.slots) == Advance(s'.position, s.slots)
      && s' == s.(pc := s.pc + width, position := s'.position)
    case _ => false
  }

  /** The instruction at the cursor ends the search whatever is put aside. */
  predicate EndsAt(p: Program, input: seq<u16>, s: Cursor) {
    match Fetch(p.code, s.pc)
    case Match => true
    case Unknown => true
    case Plain(instr, _) => s.position <= |input| && Perform(p.flags, input, instr, s.position, s.slots).Stop?
    case _ => false
  }

  lemma StepCopies(p: Program, input: seq<u16>, s: Cursor, stack: seq<Branch>, choices: seq<Choice>, s': Cursor)
    requires |stack| == |choices| && Inside(input, Copied(s, stack, choices)) && ReadsOn(p, input, s, s')
    ensures Onward(p, input, Copied(s, stack, choices)) == Some(Copied(s', stack, choices))
  {
    hide Fetch, Perform;
    assert Copied(s', stack, choices).aside == Copied(s, stack, choices).aside;
  }

  lemma EndCopies(p: Program, input: seq<u16>, s: Cursor, stack: seq<Branch>, choices: seq<Choice>)
    requires |stack| == |choices| && Inside(input, Copied(s, stack, choices))
    requires EndsAt(p, input, s) || (DiesAt(p, input, s) && stack == [])
    ensures Onward(p, input, Copied(s, stack, choices)).None?
  {
    hide Fetch, Perform;
  }

  lemma StartCopies(p: Program, input: seq<u16>, start: nat, s: Cursor)
    requires start <= |input| && s == Cursor(0, start, Started(start, []).config.slots, 0, 0)
    ensures SearchAfter(p, input, start, 0) == Some(Copied(s, [], []))
  {
    assert Copied(s, [], []).aside == [];
  }

  method ScanClass(p: Program, unit: u16, pc: nat, count: nat) returns (inside: bool)
    ensures inside == InClass(p.flags, unit, Ranges(p.code, pc + 3, count))
  {
    inside := false;
    ghost var ranges := Ranges(p.code, pc + 3, count);
    var index := 0;
    while index < count
      invariant 0 <= index <= count
      invariant !inside && forall i :: 0 <= i < index ==> !InRange(p.flags, unit, ranges[i])
    {
      var at := pc + 3 + index * 4;
      var low, high := ReadU16(p.code, at), ReadU16(p.code, at + 2);
      assert (low, high) == ranges[index];
      if (unit >= low && unit <= high)
        || (p.flags.ignoreCase && Fold(unit) >= Fold(low) && Fold(unit) <= Fold(high) && low <= high) {
        inside := true;
        break;
      }
      index := index + 1;
    }
  }

  method ScanWideClass(p: Program, point: u32, pc: nat, count: nat) returns (inside: bool)
    ensures inside == InWideClass(p.flags, point, WideRanges(p.code, pc + 3, count))
  {
    inside := false;
    ghost var ranges := WideRanges(p.code, pc + 3, count);
    var folded := if p.flags.ignoreCase && point <= 0xFFFF then Fold(point) else point;
    var index := 0;
    while index < count
      invariant 0 <= index <= count
      invariant !inside && forall i :: 0 <= i < index ==> !InWideRange(p.flags, point, ranges[i])
    {
      var at := pc + 3 + index * 8;
      var low, high := ReadU32(p.code, at), ReadU32(p.code, at + 4);
      assert (low, high) == ranges[index];
      if (point >= low && point <= high) || (folded >= low && folded <= high) {
        inside := true;
        break;
      }
      index := index + 1;
    }
  }

  method CompareUnits(p: Program, input: seq<u16>, start: nat, position: nat, length: nat) returns (same: bool)
    ensures same == Repeats(p.flags, input, start, position, length)
  {
    same := true;
    var index := 0;
    while index < length
      invariant 0 <= index <= length && same
      invariant Repeats(p.flags, input, start, position, index)
    {
      if !SameUnit(p.flags, input, start, position, index) {
        same := false;
        break;
      }
      index := index + 1;
    }
  }

  /** One instruction that neither branches nor records a capture. */
  method Execute(p: Program, input: seq<u16>, pc: nat, position: nat, slots: Slots) returns (effect: Effect, width: nat)
    requires position <= |input| && Fetch(p.code, pc).Plain? && !Fetch(p.code, pc).instr.Save?
    ensures width == Fetch(p.code, pc).width
    ensures effect == Perform(p.flags, input, Fetch(p.code, pc).instr, position, slots)
  {
    width := Fetch(p.code, pc).width;
    match Fetch(p.code, pc).instr
    case Class(negated, ranges) =>
      if position >= |input| { return Fail, width; }
      var inside := ScanClass(p, input[position], pc, |ranges|);
      effect := When(inside != negated, position + 1, slots);
    case Class32(negated, ranges) =>
      if position >= |input| { return Fail, width; }
      var (point, units) := PointAt(input, position);
      var inside := ScanWideClass(p, point, pc, |ranges|);
      effect := When(inside != negated, position + units, slots);
    case Backreference(group) =>
      if 2 * group + 1 >= MAX_SLOTS { return Stop, width; }
      var start, end := slots[2 * group], slots[2 * group + 1];
      if start == U32_MAX || end == U32_MAX { return Advance(position, slots), width; }
      var length := if end > start then end - start else 0;
      var same := CompareUnits(p, input, start, position, length);
      effect := When(same, position + length, slots);
    case _ =>
      effect := Perform(p.flags, input, Fetch(p.code, pc).instr, position, slots);
  }

  lemma SameDepth(choices: seq<Choice>, trail: seq<Saved>, slots: Slots, stack: seq<Branch>)
    requires Mirrors(choices, trail, slots, stack)
    ensures |choices| == |stack|
  {}

  lemma PositionInside(p: Program, input: seq<u16>, start: nat, path: seq<bool>, c: Config, stack: seq<Branch>)
    requires start <= |input| && Searching(p, input, start, path, c, stack)
    ensures c.position <= |input|
  {
    hide After;
  }

  lemma NothingMirrors(slots: Slots)
    ensures Mirrors([], [], slots, [])
  {}

  lemma JumpMoves(p: Program, input: seq<u16>, start: nat, path: seq<bool>, c: Config, stack: seq<Branch>)
    requires start <= |input| && c.position <= |input| && c.pending == []
    requires Searching(p, input, start, path, c, stack) && Fetch(p.code, c.pc).Jump?
    ensures Searching(p, input, start, path, c.(pc := Fetch(p.code, c.pc).target), stack)
  {
    hide Searching, Fetch;
    Moves(p, input, start, path, c, stack, c.(pc := Fetch(p.code, c.pc).target));
  }

  lemma UnknownStops(p: Program, input: seq<u16>, start: nat, path: seq<bool>, c: Config, stack: seq<Branch>)
    requires start <= |input| && c.position <= |input|
    requires Searching(p, input, start, path, c, stack) && Fetch(p.code, c.pc).Unknown?
    ensures CanStop(p, input, start)
  {
    hide Fetch, Reaches;
    Stops(p, input, start, path, c);
  }

  lemma SaveMoves(p: Program, input: seq<u16>, start: nat, path: seq<bool>, c: Config, stack: seq<Branch>)
    requires start <= |input| && c.position <= |input| && c.pending == [] && Searching(p, input, start, path, c, stack)
    requires var f := Fetch(p.code, c.pc); f.Plain? && f.instr.Save? && f.instr.slot < MAX_SLOTS
    ensures var f := Fetch(p.code, c.pc);
            Searching(p, input, start, path, Config(c.pc + f.width, c.position, c.slots[f.instr.slot := Clip(c.position)], []), stack)
  {
    hide Fetch, Searching;
    var f := Fetch(p.code, c.pc);
    Moves(p, input, start, path, c, stack, Config(c.pc + f.width, c.position, c.slots[f.instr.slot := Clip(c.position)], []));
  }

  lemma PlainMoves(p: Program, input: seq<u16>, start: nat, path: seq<bool>, c: Config, stack: seq<Branch>, e: Effect)
    requires start <= |input| && c.position <= |input| && c.pending == [] && Searching(p, input, start, path, c, stack)
    requires var f := Fetch(p.code, c.pc);
             f.Plain? && !f.instr.Save? && e == Perform(p.flags, input, f.instr, c.position, c.slots)
    ensures e.Advance? ==> e.position <= |input| && e.slots == c.slots
    ensures e.Advance? ==>
      Searching(p, input, start, path, Config(c.pc + Fetch(p.code, c.pc).width, e.position, e.slots, []), stack)
    ensures e.Fail? ==> DeadEnd(p, input, c)
    ensures e.Stop? ==> CanStop(p, input, start)
  {
    var f := Fetch(p.code, c.pc);
    OnlySaveRecords(p.flags, input, f.instr, c.position, c.slots);
    if e.Stop? { StopsHere(p, input, start, path, c, stack); }
    hide Fetch, Searching, Perform;
    if e.Advance? { Moves(p, input, start, path, c, stack, Config(c.pc + f.width, e.position, e.slots, [])); }
  }

  lemma OnlySaveRecords(flags: Flags, input: seq<u16>, instr: Instr, position: nat, slots: Slots)
    requires position <= |input| && !instr.Save?
    ensures var e := Perform(flags, input, instr, position, slots); e.Advance? ==> e.slots == slots
  {}

  lemma StopsHere(p: Program, input: seq<u16>, start: nat, path: seq<bool>, c: Config, stack: seq<Branch>)
    requires start <= |input| && c.position <= |input| && Searching(p, input, start, path, c, stack)
    requires Next(p, input, c).Stopped?
    ensures CanStop(p, input, start)
  {
    hide Next, Reaches;
    Stops(p, input, start, path, c);
  }

  /** Search for the first match from `start` in priority order. */
  method Run(p: Program, input: seq<u16>, start: nat, m: Matcher, fuel: u32) returns (found: Option<Slots>, left: u32)
    requires start <= |input|
    modifies m, m.choices, m.undo
    ensures left <= fuel
    ensures found.Some? ==> exists d :: First(p, input, start, d, found.value)
    ensures found.None? && !m.halted ==> NoMatch(p, input, start) || CanStop(p, input, start)
    ensures m.halted ==> old(m.halted) || found.None?
    ensures m.halted <==> old(m.halted) || exists n: nat :: Halts(p, input, start, n, fuel, m.choices.Length, m.undo.Length)
  {
    var s := Cursor(0, start, Started(start, []).config.slots, 0, 0);
    ghost var t := Trace([], [], 0);
    ghost var most, depth := m.choices.Length, m.undo.Length;
    left := fuel;
    StartsSearching(p, input, start);
    NothingMirrors(s.slots);
    StartCopies(p, input, start, s);
    NoneHalted(p, input, start, fuel, most, depth);
    assert m.Holds(p, input, start, s, t);
    hide Fetch, Perform, Searching, Mirrors, SearchAfter, Copied, Accepts, First, NoMatch, CanStop, DeadEnd, DiesAt, Halts;
    while true
      invariant m.Holds(p, input, start, s, t) && left <= fuel && m.halted == old(m.halted)
      invariant t.steps == fuel - left && Unhalted(p, input, start, t.steps, fuel, most, depth)
      decreases left
    {
      m.Sees(p, input, start, s, t, fuel);
      if left == 0 {
        m.halted := true;
        return None, left;
      }
      left := left - 1;
      var turn, s', t' := m.Step(p, input, start, s, t);
      match turn
      case GoesOn =>
        OneMoreUnhalted(p, input, start, t.steps, fuel, most, depth);
        s, t := s', t';
      case Short =>
        m.halted := true;
        return None, left;
      case Over(result) =>
        m.Ends(p, input, start, s, t, fuel);
        return result, left;
    }
  }
}
