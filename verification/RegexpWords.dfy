/** The words of a pattern, and what a search over its compiled code says about them. */
module PatternWords {
  import opened Words
  import opened PatternPrograms
  import opened PatternTrees
  import opened PatternTheorems
  import opened PatternLanguages
  import T = PatternTermination

  // ----- words -----

  /** The trees whose matches depend on nothing but the units they span. */
  predicate Regular(flags: Flags, t: Regex) {
    match t
    case Empty => true
    case Atom(instr) => instr.Char? || instr.CharFolded? || instr.Class? || (instr.Any? && !flags.unicode)
    case Then(left, right) => Regular(flags, left) && Regular(flags, right)
    case Either(left, right) => Regular(flags, left) && Regular(flags, right)
    case Repeat(body, _, _, _) => Regular(flags, body)
    case Group(_, body) => Regular(flags, body)
  }

  ghost predicate InLanguage(flags: Flags, t: Regex, w: seq<u16>)
    decreases t, 0
  {
    match t
    case Empty => w == []
    case Atom(instr) => |w| == 1 && IsLetter(flags, instr, w[0])
    case Then(left, right) => exists k: nat :: k <= |w| && InLanguage(flags, left, w[..k]) && InLanguage(flags, right, w[k..])
    case Either(left, right) => InLanguage(flags, left, w) || InLanguage(flags, right, w)
    case Repeat(body, min, max, _) => exists n: nat :: Allowed(min, max, n) && InPower(flags, body, n, w)
    case Group(_, body) => InLanguage(flags, body, w)
  }

  /** `n` words of the body, one after the other. */
  ghost predicate InPower(flags: Flags, body: Regex, n: nat, w: seq<u16>)
    decreases body, 1, n
  {
    if n == 0 then w == []
    else exists k: nat :: k <= |w| && InLanguage(flags, body, w[..k]) && InPower(flags, body, n - 1, w[k..])
  }

  predicate IsLetter(flags: Flags, instr: Instr, unit: u16) {
    match instr
    case Char(c) => unit == c
    case CharFolded(c) => Lowers(flags, unit, c)
    case Any => flags.dotAll || !EndsLine(unit)
    case Class(negated, ranges) => OneOf(flags, unit, ranges) <==> !negated
    case _ => false
  }

  lemma LetterIs(flags: Flags, input: seq<u16>, instr: Instr, at: Place, there: Place)
    requires Regular(flags, Atom(instr))
    ensures Does(flags, input, instr, at, there) <==>
            at.position < |input| && there == at.(position := at.position + 1) && IsLetter(flags, instr, input[at.position])
  {
    var p, q := at.position, there.position;
    hide Lowers, OneOf, Spells, EndsLine;
    if p < |input| { assert input[p..p + 1] == [input[p]]; }
    if Does(flags, input, instr, at, there) && (instr.Char? || instr.Any?) {
      assert |input[p..q]| == 1 && input[p..q][0] == input[p];
    }
  }

  lemma CutWord(input: seq<u16>, p: nat, m: nat, q: nat)
    requires p <= m <= q <= |input|
    ensures input[p..q][..m - p] == input[p..m] && input[p..q][m - p..] == input[m..q]
  {}

  /** A way spans a word. */
  lemma {:induction false} WaySpansWord(flags: Flags, input: seq<u16>, t: Regex, at: Place, there: Place)
    requires at.position <= |input| && Regular(flags, t) && Leads(flags, input, t, at, there)
    ensures at.position <= there.position <= |input|
    ensures InLanguage(flags, t, input[at.position..there.position])
    decreases t, 0
  {
    hide Does, IsLetter, Loops, Allowed;
    LeadsOn(flags, input, t, at, there);
    var p, q := at.position, there.position;
    match t
    case Empty =>
    case Atom(instr) => LetterIs(flags, input, instr, at, there);
    case Then(left, right) =>
      var mid: Place :| Leads(flags, input, left, at, mid) && Leads(flags, input, right, mid, there);
      WaySpansWord(flags, input, left, at, mid);
      WaySpansWord(flags, input, right, mid, there);
      CutWord(input, p, mid.position, q);
    case Either(left, right) =>
      if Leads(flags, input, left, at, there) { WaySpansWord(flags, input, left, at, there); }
      else { WaySpansWord(flags, input, right, at, there); }
    case Repeat(body, min, max, _) =>
      var n: nat :| Allowed(min, max, n) && Loops(flags, input, body, n, at, there);
      LoopSpansPower(flags, input, body, n, at, there);
    case Group(index, body) =>
      var inner := at.(slots := at.slots[2 * index := Min(p, U32_MAX)]);
      var mid: Place :| Leads(flags, input, body, inner, mid)
                        && there == mid.(slots := mid.slots[2 * index + 1 := Min(mid.position, U32_MAX)]);
      WaySpansWord(flags, input, body, inner, mid);
  }

  lemma {:induction false} LoopSpansPower(flags: Flags, input: seq<u16>, body: Regex, n: nat, at: Place, there: Place)
    requires at.position <= |input| && Regular(flags, body) && Loops(flags, input, body, n, at, there)
    ensures at.position <= there.position <= |input|
    ensures InPower(flags, body, n, input[at.position..there.position])
    decreases body, 1, n
  {
    hide Leads, InLanguage, Regular;
    if n > 0 {
      var mid: Place :| Leads(flags, input, body, at, mid) && Loops(flags, input, body, n - 1, mid, there);
      WaySpansWord(flags, input, body, at, mid);
      LoopSpansPower(flags, input, body, n - 1, mid, there);
      CutWord(input, at.position, mid.position, there.position);
    }
  }

  /** A word is spanned by a way. */
  lemma {:induction false} WordHasWay(flags: Flags, input: seq<u16>, t: Regex, at: Place, q: nat) returns (there: Place)
    requires at.position <= q <= |input| && Regular(flags, t) && Proper(t)
    requires InLanguage(flags, t, input[at.position..q])
    ensures there.position == q && Leads(flags, input, t, at, there)
    decreases t, 1, 0
  {
    hide Does, IsLetter, InPower, Allowed;
    var p := at.position;
    there := at;
    match t
    case Empty =>
    case Atom(instr) =>
      there := at.(position := q);
      LetterIs(flags, input, instr, at, there);
    case Then(left, right) =>
      var w := input[p..q];
      var k: nat :| k <= |w| && InLanguage(flags, left, w[..k]) && InLanguage(flags, right, w[k..]);
      there := WordHasThen(flags, input, left, right, at, k, q);
    case Either(left, right) =>
      if InLanguage(flags, left, input[p..q]) { there := WordHasWay(flags, input, left, at, q); }
      else { there := WordHasWay(flags, input, right, at, q); }
    case Repeat(body, min, max, _) =>
      var n: nat :| Allowed(min, max, n) && InPower(flags, body, n, input[p..q]);
      there := PowerHasLoop(flags, input, body, n, at, q);
    case Group(index, body) => there := WordHasGroup(flags, input, index, body, at, q);
  }

  lemma {:induction false} WordHasThen(flags: Flags, input: seq<u16>, left: Regex, right: Regex, at: Place, k: nat, q: nat)
      returns (there: Place)
    requires at.position + k <= q <= |input|
    requires Regular(flags, left) && Proper(left) && Regular(flags, right) && Proper(right)
    requires InLanguage(flags, left, input[at.position..q][..k]) && InLanguage(flags, right, input[at.position..q][k..])
    ensures there.position == q && Leads(flags, input, Then(left, right), at, there)
    decreases Then(left, right), 0, 0
  {
    hide InLanguage, Regular, Proper;
    CutWord(input, at.position, at.position + k, q);
    var mid := WordHasWay(flags, input, left, at, at.position + k);
    there := WordHasWay(flags, input, right, mid, q);
    ThenWay(flags, input, left, right, at, mid, there);
    hide Leads;
  }

  lemma ThenWay(flags: Flags, input: seq<u16>, left: Regex, right: Regex, at: Place, mid: Place, there: Place)
    requires Leads(flags, input, left, at, mid) && Leads(flags, input, right, mid, there)
    ensures Leads(flags, input, Then(left, right), at, there)
  {}

  lemma {:induction false} WordHasGroup(flags: Flags, input: seq<u16>, index: nat, body: Regex, at: Place, q: nat) returns (there: Place)
    requires at.position <= q <= |input| && Regular(flags, body) && Proper(body) && index <= MAX_GROUPS
    requires InLanguage(flags, body, input[at.position..q])
    ensures there.position == q && Leads(flags, input, Group(index, body), at, there)
    decreases body, 2, 0
  {
    hide InLanguage, Regular, Proper;
    var inner := at.(slots := at.slots[2 * index := Min(at.position, U32_MAX)]);
    var mid := WordHasWay(flags, input, body, inner, q);
    there := mid.(slots := mid.slots[2 * index + 1 := Min(mid.position, U32_MAX)]);
    GroupWay(flags, input, index, body, at, mid);
    hide Leads;
  }

  lemma {:induction false} PowerHasLoop(flags: Flags, input: seq<u16>, body: Regex, n: nat, at: Place, q: nat) returns (there: Place)
    requires at.position <= q <= |input| && Regular(flags, body) && Proper(body)
    requires InPower(flags, body, n, input[at.position..q])
    ensures there.position == q && Loops(flags, input, body, n, at, there)
    decreases body, 2, n
  {
    hide Leads, InLanguage, Regular, Proper;
    there := at;
    if n > 0 {
      var p, w := at.position, input[at.position..q];
      var k: nat :| k <= |w| && InLanguage(flags, body, w[..k]) && InPower(flags, body, n - 1, w[k..]);
      CutWord(input, p, p + k, q);
      var mid := WordHasWay(flags, input, body, at, p + k);
      there := PowerHasLoop(flags, input, body, n - 1, mid, q);
    }
  }

  /** Some decisions lead a regular tree from `p` to `q` exactly when the input between is a word of it. */
  lemma DecisionsSpanWords(flags: Flags, input: seq<u16>, t: Regex, at: Place, q: nat)
    requires at.position <= q <= |input| && Regular(flags, t) && Proper(t)
    ensures (exists d, there :: Runs(flags, input, t, at, d) == Reached((there, [])) && there.position == q)
            <==> InLanguage(flags, t, input[at.position..q])
  {
    hide Runs, Leads, Proper, Regular, InLanguage;
    if d, there :| Runs(flags, input, t, at, d) == Reached((there, [])) && there.position == q {
      RunsLead(flags, input, t, at, d);
      WaySpansWord(flags, input, t, at, there);
    }
    if InLanguage(flags, t, input[at.position..q]) {
      var there := WordHasWay(flags, input, t, at, q);
      var d := LeadsRun(flags, input, t, at, there);
      assert Runs(flags, input, t, at, d + []) == Reached((there, []));
    }
  }

  // ----- what a search answers -----

  /** Where a match begins: its start is noted, and every group is unset. */
  ghost predicate Begins(at: Place, start: nat) {
    at.position == start && at.slots[0] == Min(start, U32_MAX) && forall i :: 1 <= i < MAX_SLOTS ==> at.slots[i] == U32_MAX
  }

  lemma OpeningBegins(start: nat)
    ensures Begins(Opening(start), start)
    ensures forall at: Place :: Begins(at, start) ==> at == Opening(start)
  {
    forall at: Place | Begins(at, start) ensures at == Opening(start) {
      forall i | 0 <= i < MAX_SLOTS ensures at.slots[i] == Opening(start).slots[i] {}
      assert at.slots == Opening(start).slots;
    }
  }

  /** The captures of a way: those it recorded, and where it ended. */
  ghost predicate Captured(there: Place, slots: Slots) { slots == there.slots[1 := Min(there.position, U32_MAX)] }

  /** Compiled code matches with some captures exactly when the tree has a way with them. */
  lemma MatchesAreWays(t: Regex, flags: Flags, names: seq<byte>, input: seq<u16>, at: Place, slots: Slots)
    requires Proper(t) && |Code(t)| <= FAR && at.position <= |input| && Begins(at, at.position)
    ensures (exists d :: Accepts(Compiled(t, flags, names), input, at.position, d, slots))
            <==> exists there :: Leads(flags, input, t, at, there) && Captured(there, slots)
  {
    hide Leads, Proper, Code, Compiled, Accepts, Begins, TreeAccepts;
    var p, start := Compiled(t, flags, names), at.position;
    if d :| Accepts(p, input, start, d, slots) {
      CompiledAccepts(t, flags, names, input, start, d, slots);
      var there := AcceptedWay(flags, input, t, at, d, slots);
    }
    if there :| Leads(flags, input, t, at, there) && Captured(there, slots) {
      var d := WayAccepted(flags, input, t, at, there, slots);
      CompiledAccepts(t, flags, names, input, start, d, slots);
    }
  }

  lemma AcceptedWay(flags: Flags, input: seq<u16>, t: Regex, at: Place, d: seq<bool>, slots: Slots) returns (there: Place)
    requires Proper(t) && at.position <= |input| && Begins(at, at.position)
    requires TreeAccepts(flags, input, t, at.position, d, slots)
    ensures Leads(flags, input, t, at, there) && Captured(there, slots)
  {
    hide Runs, Leads, Proper, Begins;
    OpeningBegins(at.position);
    RunsLead(flags, input, t, at, d);
    there := Runs(flags, input, t, at, d).value.0;
  }

  lemma WayAccepted(flags: Flags, input: seq<u16>, t: Regex, at: Place, there: Place, slots: Slots) returns (d: seq<bool>)
    requires Proper(t) && at.position <= |input| && Begins(at, at.position)
    requires Leads(flags, input, t, at, there) && Captured(there, slots)
    ensures TreeAccepts(flags, input, t, at.position, d, slots)
  {
    hide Runs, Leads, Proper, Begins;
    OpeningBegins(at.position);
    d := LeadsRun(flags, input, t, at, there);
    assert d + [] == d && Runs(flags, input, t, at, d + []) == Reached((there, []));
  }

  // ----- captures -----

  /** No part of the tree records in this slot. */
  predicate Unwritten(t: Regex, slot: nat) {
    match t
    case Empty => true
    case Atom(instr) => instr.Save? ==> instr.slot != slot
    case Then(left, right) => Unwritten(left, slot) && Unwritten(right, slot)
    case Either(left, right) => Unwritten(left, slot) && Unwritten(right, slot)
    case Repeat(body, _, _, _) => Unwritten(body, slot)
    case Group(index, body) => 2 * index != slot && 2 * index + 1 != slot && Unwritten(body, slot)
  }

  lemma {:induction false} SlotKept(flags: Flags, input: seq<u16>, t: Regex, at: Place, there: Place, slot: nat)
    requires Unwritten(t, slot) && slot < MAX_SLOTS && Leads(flags, input, t, at, there)
    ensures there.slots[slot] == at.slots[slot]
    decreases t, 0
  {
    hide Loops, Allowed;
    match t
    case Empty =>
    case Atom(instr) =>
    case Then(left, right) =>
      var mid: Place :| Leads(flags, input, left, at, mid) && Leads(flags, input, right, mid, there);
      SlotKept(flags, input, left, at, mid, slot);
      SlotKept(flags, input, right, mid, there, slot);
    case Either(left, right) =>
      if Leads(flags, input, left, at, there) { SlotKept(flags, input, left, at, there, slot); }
      else { SlotKept(flags, input, right, at, there, slot); }
    case Repeat(body, min, max, _) =>
      var n: nat :| Allowed(min, max, n) && Loops(flags, input, body, n, at, there);
      SlotKeptLooping(flags, input, body, n, at, there, slot);
    case Group(index, body) =>
      var inner := at.(slots := at.slots[2 * index := Min(at.position, U32_MAX)]);
      var mid: Place :| Leads(flags, input, body, inner, mid)
                        && there == mid.(slots := mid.slots[2 * index + 1 := Min(mid.position, U32_MAX)]);
      SlotKept(flags, input, body, inner, mid, slot);
  }

  lemma {:induction false} SlotKeptLooping(flags: Flags, input: seq<u16>, body: Regex, n: nat, at: Place, there: Place, slot: nat)
    requires Unwritten(body, slot) && slot < MAX_SLOTS && Loops(flags, input, body, n, at, there)
    ensures there.slots[slot] == at.slots[slot]
    decreases body, 1, n
  {
    hide Leads;
    if n > 0 {
      var mid: Place :| Leads(flags, input, body, at, mid) && Loops(flags, input, body, n - 1, mid, there);
      SlotKept(flags, input, body, at, mid, slot);
      SlotKeptLooping(flags, input, body, n - 1, mid, there, slot);
    }
  }

  /** A slot once set is set again at most, never unset. */
  lemma {:induction false} SetStays(flags: Flags, input: seq<u16>, t: Regex, at: Place, there: Place, slot: nat)
    requires at.position <= |input| < U32_MAX && slot < MAX_SLOTS && Leads(flags, input, t, at, there)
    requires at.slots[slot] != U32_MAX
    ensures there.slots[slot] != U32_MAX
    decreases t, 0
  {
    hide Loops, Allowed;
    LeadsOn(flags, input, t, at, there);
    match t
    case Empty =>
    case Atom(instr) =>
    case Then(left, right) =>
      var mid: Place :| Leads(flags, input, left, at, mid) && Leads(flags, input, right, mid, there);
      LeadsOn(flags, input, left, at, mid);
      SetStays(flags, input, left, at, mid, slot);
      SetStays(flags, input, right, mid, there, slot);
    case Either(left, right) =>
      if Leads(flags, input, left, at, there) { SetStays(flags, input, left, at, there, slot); }
      else { SetStays(flags, input, right, at, there, slot); }
    case Repeat(body, min, max, _) =>
      var n: nat :| Allowed(min, max, n) && Loops(flags, input, body, n, at, there);
      SetStaysLooping(flags, input, body, n, at, there, slot);
    case Group(index, body) =>
      var inner := at.(slots := at.slots[2 * index := Min(at.position, U32_MAX)]);
      var mid: Place :| Leads(flags, input, body, inner, mid)
                        && there == mid.(slots := mid.slots[2 * index + 1 := Min(mid.position, U32_MAX)]);
      SetStays(flags, input, body, inner, mid, slot);
  }

  lemma {:induction false} SetStaysLooping(flags: Flags, input: seq<u16>, body: Regex, n: nat, at: Place, there: Place, slot: nat)
    requires at.position <= |input| < U32_MAX && slot < MAX_SLOTS && Loops(flags, input, body, n, at, there)
    requires at.slots[slot] != U32_MAX
    ensures there.slots[slot] != U32_MAX
    decreases body, 1, n
  {
    hide Leads;
    if n > 0 {
      var mid: Place :| Leads(flags, input, body, at, mid) && Loops(flags, input, body, n - 1, mid, there);
      LeadsOn(flags, input, body, at, mid);
      SetStays(flags, input, body, at, mid, slot);
      SetStaysLooping(flags, input, body, n - 1, mid, there, slot);
    }
  }

  /** The tree with a group that nothing matches: its ways are those that never enter the group. */
  function Without(t: Regex, g: nat): Regex {
    match t
    case Then(left, right) => Then(Without(left, g), Without(right, g))
    case Either(left, right) => Either(Without(left, g), Without(right, g))
    case Repeat(body, min, max, isLazy) => Repeat(Without(body, g), min, max, isLazy)
    case Group(index, body) => if index == g then Atom(Class(false, [])) else Group(index, Without(body, g))
    case _ => t
  }

  /** Only the group itself records in its slots. */
  predicate OwnSlots(t: Regex, g: nat) {
    match t
    case Empty => true
    case Atom(instr) => instr.Save? ==> instr.slot != 2 * g && instr.slot != 2 * g + 1
    case Then(left, right) => OwnSlots(left, g) && OwnSlots(right, g)
    case Either(left, right) => OwnSlots(left, g) && OwnSlots(right, g)
    case Repeat(body, _, _, _) => OwnSlots(body, g)
    case Group(_, body) => OwnSlots(body, g)
  }

  lemma {:induction false} WithoutUnwritten(t: Regex, g: nat)
    requires OwnSlots(t, g)
    ensures Unwritten(Without(t, g), 2 * g) && Unwritten(Without(t, g), 2 * g + 1)
  {
    match t
    case Empty =>
    case Atom(_) =>
    case Then(left, right) => WithoutUnwritten(left, g); WithoutUnwritten(right, g);
    case Either(left, right) => WithoutUnwritten(left, g); WithoutUnwritten(right, g);
    case Repeat(body, _, _, _) => WithoutUnwritten(body, g);
    case Group(_, body) => WithoutUnwritten(body, g);
  }

  /** A way that leaves a group unset never entered it. */
  lemma {:induction false} UnsetAvoids(flags: Flags, input: seq<u16>, t: Regex, at: Place, there: Place, g: nat)
    requires at.position <= |input| < U32_MAX && 2 * g < MAX_SLOTS && Leads(flags, input, t, at, there)
    requires there.slots[2 * g] == U32_MAX
    ensures Leads(flags, input, Without(t, g), at, there)
    decreases t, 0
  {
    hide Does, Loops, Allowed;
    match t
    case Empty =>
    case Atom(instr) =>
    case Then(left, right) =>
      var mid: Place :| Leads(flags, input, left, at, mid) && Leads(flags, input, right, mid, there);
      LeadsOn(flags, input, left, at, mid);
      if mid.slots[2 * g] != U32_MAX { SetStays(flags, input, right, mid, there, 2 * g); }
      UnsetAvoids(flags, input, left, at, mid, g);
      UnsetAvoids(flags, input, right, mid, there, g);
    case Either(left, right) =>
      if Leads(flags, input, left, at, there) { UnsetAvoids(flags, input, left, at, there, g); }
      else { UnsetAvoids(flags, input, right, at, there, g); }
    case Repeat(body, min, max, _) =>
      var n: nat :| Allowed(min, max, n) && Loops(flags, input, body, n, at, there);
      UnsetAvoidsLooping(flags, input, body, n, at, there, g);
    case Group(index, body) => UnsetAvoidsGroup(flags, input, index, body, at, there, g);
  }

  lemma {:induction false} UnsetAvoidsGroup(flags: Flags, input: seq<u16>, index: nat, body: Regex, at: Place, there: Place, g: nat)
    requires at.position <= |input| < U32_MAX && 2 * g < MAX_SLOTS && Leads(flags, input, Group(index, body), at, there)
    requires there.slots[2 * g] == U32_MAX
    ensures Leads(flags, input, Without(Group(index, body), g), at, there)
    decreases body, 2
  {
    hide Leads;
    var inner, mid := InsideGroup(flags, input, index, body, at, there);
    if index == g {
      SetStays(flags, input, body, inner, mid, 2 * g);
    } else {
      UnsetAvoids(flags, input, body, inner, mid, g);
      GroupWay(flags, input, index, Without(body, g), at, mid);
    }
  }

  lemma InsideGroup(flags: Flags, input: seq<u16>, index: nat, body: Regex, at: Place, there: Place) returns (inner: Place, mid: Place)
    requires Leads(flags, input, Group(index, body), at, there)
    ensures index <= MAX_GROUPS && Leads(flags, input, body, inner, mid)
    ensures inner == at.(slots := at.slots[2 * index := Min(at.position, U32_MAX)])
    ensures there == mid.(slots := mid.slots[2 * index + 1 := Min(mid.position, U32_MAX)])
  {
    inner := at.(slots := at.slots[2 * index := Min(at.position, U32_MAX)]);
    mid :| Leads(flags, input, body, inner, mid)
           && there == mid.(slots := mid.slots[2 * index + 1 := Min(mid.position, U32_MAX)]);
  }

  lemma {:induction false} UnsetAvoidsLooping(flags: Flags, input: seq<u16>, body: Regex, n: nat, at: Place, there: Place, g: nat)
    requires at.position <= |input| < U32_MAX && 2 * g < MAX_SLOTS && Loops(flags, input, body, n, at, there)
    requires there.slots[2 * g] == U32_MAX
    ensures Loops(flags, input, Without(body, g), n, at, there)
    decreases body, 1, n
  {
    hide Leads;
    if n > 0 {
      var mid: Place :| Leads(flags, input, body, at, mid) && Loops(flags, input, body, n - 1, mid, there);
      LeadsOn(flags, input, body, at, mid);
      if mid.slots[2 * g] != U32_MAX { SetStaysLooping(flags, input, body, n - 1, mid, there, 2 * g); }
      UnsetAvoids(flags, input, body, at, mid, g);
      UnsetAvoidsLooping(flags, input, body, n - 1, mid, there, g);
    }
  }

  /** A group is unset after a way exactly when the way never enters it. */
  lemma UnsetExactly(flags: Flags, input: seq<u16>, t: Regex, at: Place, there: Place, g: nat)
    requires at.position <= |input| < U32_MAX && 2 * g + 1 < MAX_SLOTS && OwnSlots(t, g)
    requires at.slots[2 * g] == at.slots[2 * g + 1] == U32_MAX && Leads(flags, input, t, at, there)
    ensures there.slots[2 * g] == U32_MAX <==> Leads(flags, input, Without(t, g), at, there)
    ensures there.slots[2 * g] == U32_MAX ==> there.slots[2 * g + 1] == U32_MAX
  {
    hide Leads, OwnSlots, Unwritten;
    WithoutUnwritten(t, g);
    if there.slots[2 * g] == U32_MAX { UnsetAvoids(flags, input, t, at, there, g); }
    if Leads(flags, input, Without(t, g), at, there) {
      SlotKept(flags, input, Without(t, g), at, there, 2 * g);
      SlotKept(flags, input, Without(t, g), at, there, 2 * g + 1);
    }
  }

  // ----- the answer of a search -----

  /** A match found starts where it was looked for and spans a word of the pattern,
      and if the search ended with none, nothing from there on is one. */
  lemma AnswerIsWord(t: Regex, flags: Flags, names: seq<byte>, input: seq<u16>, start: nat, found: Option<Slots>, halted: bool)
    requires Proper(t) && |Code(t)| <= FAR && start <= |input| && Regular(flags, t) && Unwritten(t, 0)
    requires found.Some? ==> exists d :: First(Compiled(t, flags, names), input, start, d, found.value)
    requires found.None? && !halted ==>
      NoMatch(Compiled(t, flags, names), input, start) || CanStop(Compiled(t, flags, names), input, start)
    ensures found.Some? ==>
      && found.value[0] == Min(start, U32_MAX)
      && exists q :: start <= q <= |input| && found.value[1] == Min(q, U32_MAX) && InLanguage(flags, t, input[start..q])
    ensures found.None? && !halted ==> forall q :: start <= q <= |input| ==> !InLanguage(flags, t, input[start..q])
  {
    hide Leads, Proper, Code, Compiled, Accepts, Begins, InLanguage, Unwritten, Regular, CanStop;
    var at := Opening(start);
    OpeningBegins(start);
    CompiledNeverStops(t, flags, names, input, start);
    if found.Some? {
      MatchesAreWays(t, flags, names, input, at, found.value);
      var there :| Leads(flags, input, t, at, there) && Captured(there, found.value);
      WaySpansWord(flags, input, t, at, there);
      SlotKept(flags, input, t, at, there, 0);
      OpensAt(at, start);
    } else if !halted {
      forall q | start <= q <= |input| ensures !InLanguage(flags, t, input[start..q]) {
        if InLanguage(flags, t, input[start..q]) {
          var there := WordHasWay(flags, input, t, at, q);
          assert Captured(there, there.slots[1 := Min(q, U32_MAX)]);
          MatchesAreWays(t, flags, names, input, at, there.slots[1 := Min(q, U32_MAX)]);
        }
      }
    }
  }

  /** What a match found captures: where it starts and ends, and a group exactly when
      the way it found goes through the group. */
  lemma MatchCaptures(t: Regex, flags: Flags, names: seq<byte>, input: seq<u16>, start: nat, d: seq<bool>, slots: Slots)
      returns (there: Place)
    requires Proper(t) && |Code(t)| <= FAR && start <= |input| < U32_MAX && Unwritten(t, 0)
    requires First(Compiled(t, flags, names), input, start, d, slots)
    ensures Leads(flags, input, t, Opening(start), there) && start <= there.position <= |input|
    ensures slots[0] == start && slots[1] == there.position
    ensures forall g :: 1 <= g <= MAX_GROUPS && OwnSlots(t, g) ==>
              && (slots[2 * g] == U32_MAX <==> Leads(flags, input, Without(t, g), Opening(start), there))
              && (slots[2 * g] == U32_MAX ==> slots[2 * g + 1] == U32_MAX)
  {
    hide Leads, Proper, Code, Compiled, Accepts, Begins, Unwritten, OwnSlots;
    var at := Opening(start);
    OpeningBegins(start);
    OpensAt(at, start);
    MatchesAreWays(t, flags, names, input, at, slots);
    there :| Leads(flags, input, t, at, there) && Captured(there, slots);
    LeadsOn(flags, input, t, at, there);
    SlotKept(flags, input, t, at, there, 0);
    forall g | 1 <= g <= MAX_GROUPS && OwnSlots(t, g)
      ensures slots[2 * g] == U32_MAX <==> Leads(flags, input, Without(t, g), at, there)
      ensures slots[2 * g] == U32_MAX ==> slots[2 * g + 1] == U32_MAX
    {
      UnsetExactly(flags, input, t, at, there, g);
    }
  }

  lemma OpensAt(at: Place, start: nat)
    requires Begins(at, start)
    ensures at.slots[0] == Min(start, U32_MAX)
    ensures forall i :: 1 <= i < MAX_SLOTS ==> at.slots[i] == U32_MAX
  {}

  // ----- which match comes first -----

  lemma BeforeTail(b: bool, x: seq<bool>, y: seq<bool>)
    ensures Before([b] + x, [b] + y) <==> Before(x, y)
    ensures [b] + x == [b] + y <==> x == y
  {
    var u, v := [b] + x, [b] + y;
    assert u[1..] == x && v[1..] == y;
    if k :| 0 <= k < |x| && k < |y| && !x[k] && y[k] && x[..k] == y[..k] {
      assert u[..k + 1] == [b] + x[..k] && v[..k + 1] == [b] + y[..k];
      assert !u[k + 1] && v[k + 1];
    }
    if k :| 0 <= k < |u| && k < |v| && !u[k] && v[k] && u[..k] == v[..k] {
      assert k > 0 && x[..k - 1] == u[..k][1..] && y[..k - 1] == v[..k][1..];
    }
  }

  lemma FirstIsBefore(x: seq<bool>, y: seq<bool>)
    requires x != [] && y != [] && x[0] != y[0]
    ensures Before(x, y) <==> !x[0]
    ensures x != y
  {
    assert x[..0] == y[..0];
    forall k | 0 < k < |x| && k < |y| ensures x[..k] != y[..k] { assert x[..k][0] != y[..k][0]; }
  }

  lemma EitherAccepts(flags: Flags, input: seq<u16>, left: Regex, right: Regex, start: nat, d: seq<bool>, slots: Slots)
    requires start <= |input|
    ensures TreeAccepts(flags, input, Either(left, right), start, d, slots) <==>
            d != [] && TreeAccepts(flags, input, if d[0] then right else left, start, d[1..], slots)
  {}

  lemma BranchAccepts(flags: Flags, input: seq<u16>, left: Regex, right: Regex, start: nat, b: bool, d: seq<bool>, slots: Slots)
    requires start <= |input|
    ensures TreeAccepts(flags, input, Either(left, right), start, [b] + d, slots) <==>
            TreeAccepts(flags, input, if b then right else left, start, d, slots)
  {
    hide TreeAccepts;
    EitherAccepts(flags, input, left, right, start, [b] + d, slots);
    assert ([b] + d)[1..] == d;
  }

  /** The first match of an alternative is, in the branch it takes, the first one. */
  lemma FirstInBranch(flags: Flags, input: seq<u16>, left: Regex, right: Regex, start: nat, b: bool, d: seq<bool>, slots: Slots)
    requires start <= |input| && TreeFirst(flags, input, Either(left, right), start, [b] + d, slots)
    ensures TreeFirst(flags, input, if b then right else left, start, d, slots)
    ensures b ==> forall e, s :: !TreeAccepts(flags, input, left, start, e, s)
  {
    hide TreeAccepts, Before;
    var taken := if b then right else left;
    BranchAccepts(flags, input, left, right, start, b, d, slots);
    forall e, s | TreeAccepts(flags, input, taken, start, e, s)
      ensures (e == d && s == slots) || Before(d, e)
    {
      NoneEarlier(flags, input, left, right, start, [b] + d, slots, b, e, s);
      BeforeTail(b, d, e);
    }
    if b {
      forall e, s | TreeAccepts(flags, input, left, start, e, s) ensures false {
        NoneEarlier(flags, input, left, right, start, [b] + d, slots, false, e, s);
        FirstIsBefore([b] + d, [false] + e);
      }
    }
  }

  lemma NoneEarlier(flags: Flags, input: seq<u16>, left: Regex, right: Regex, start: nat, d: seq<bool>, slots: Slots,
                    c: bool, e: seq<bool>, s: Slots)
    requires start <= |input| && TreeFirst(flags, input, Either(left, right), start, d, slots)
    requires TreeAccepts(flags, input, if c then right else left, start, e, s)
    ensures ([c] + e == d && s == slots) || Before(d, [c] + e)
  {
    hide TreeAccepts, Before;
    BranchAccepts(flags, input, left, right, start, c, e, s);
  }

  lemma FirstOfBranch(flags: Flags, input: seq<u16>, left: Regex, right: Regex, start: nat, b: bool, d: seq<bool>, slots: Slots)
    requires start <= |input| && TreeFirst(flags, input, if b then right else left, start, d, slots)
    requires b ==> forall e, s :: !TreeAccepts(flags, input, left, start, e, s)
    ensures TreeFirst(flags, input, Either(left, right), start, [b] + d, slots)
  {
    hide TreeAccepts, Before;
    BranchAccepts(flags, input, left, right, start, b, d, slots);
    forall e, s | TreeAccepts(flags, input, Either(left, right), start, e, s)
      ensures (e == [b] + d && s == slots) || Before([b] + d, e)
    {
      EitherAccepts(flags, input, left, right, start, e, s);
      var c, rest := e[0], e[1..];
      assert e == [c] + rest;
      BranchAccepts(flags, input, left, right, start, c, rest, s);
      BeforeTail(b, d, rest);
      if b != c { FirstIsBefore([b] + d, e); }
    }
  }

  /** An alternative matches as its left branch does, and as its right only if the left has no match. */
  lemma EitherInOrder(flags: Flags, input: seq<u16>, left: Regex, right: Regex, start: nat, d: seq<bool>, slots: Slots)
    requires start <= |input|
    ensures TreeFirst(flags, input, Either(left, right), start, d, slots) <==>
            && d != []
            && TreeFirst(flags, input, if d[0] then right else left, start, d[1..], slots)
            && (d[0] ==> forall e, s :: !TreeAccepts(flags, input, left, start, e, s))
  {
    if d != [] {
      assert d == [d[0]] + d[1..];
      hide TreeAccepts, Before;
      if TreeFirst(flags, input, Either(left, right), start, d, slots) {
        FirstInBranch(flags, input, left, right, start, d[0], d[1..], slots);
      }
      hide TreeFirst;
      if TreeFirst(flags, input, if d[0] then right else left, start, d[1..], slots)
         && (d[0] ==> forall e, s :: !TreeAccepts(flags, input, left, start, e, s)) {
        FirstOfBranch(flags, input, left, right, start, d[0], d[1..], slots);
      }
    }
  }

  // ----- greedy and lazy -----

  /** As many turns as `k`, and no more. */
  function Greedily(k: nat): (d: seq<bool>)
    ensures d != []
  {
    if k == 0 then [true] else [false] + Greedily(k - 1)
  }

  lemma {:induction false} MoreIsNotLater(k: nat)
    ensures Greedily(k) != Greedily(k + 1) && !Before(Greedily(k), Greedily(k + 1))
  {
    hide Before;
    if k > 0 {
      MoreIsNotLater(k - 1);
      BeforeTail(false, Greedily(k - 1), Greedily(k));
    } else {
      FirstIsBefore(Greedily(0), Greedily(1));
    }
  }

  ghost predicate LettersFrom(flags: Flags, input: seq<u16>, instr: Instr, p: nat, q: nat) {
    p <= q <= |input| && forall i :: p <= i < q ==> IsLetter(flags, instr, input[i])
  }

  lemma LetterRuns(flags: Flags, input: seq<u16>, instr: Instr, at: Place, d: seq<bool>)
    requires Regular(flags, Atom(instr)) && at.position <= |input|
    ensures Runs(flags, input, Atom(instr), at, d) ==
            if at.position < |input| && IsLetter(flags, instr, input[at.position])
            then Reached((at.(position := at.position + 1), d)) else Fails
  {
    var r := Performs(flags, input, instr, at, d);
    PerformsIs(flags, input, instr, at, d, at.(position := at.position + 1));
    LetterIs(flags, input, instr, at, at.(position := at.position + 1));
    if r.Reached? {
      PerformsIs(flags, input, instr, at, d, r.value.0);
      LetterIs(flags, input, instr, at, r.value.0);
    }
  }

  /** Taking `k` letters is one way through their repetition. */
  lemma {:induction false} LettersTaken(flags: Flags, input: seq<u16>, instr: Instr, at: Place, k: nat)
    requires Regular(flags, Atom(instr)) && LettersFrom(flags, input, instr, at.position, at.position + k)
    ensures Turns(flags, input, Atom(instr), 0, None, false, at, Greedily(k)) == Reached((at.(position := at.position + k), []))
    decreases k
  {
    hide Runs, IsLetter;
    if k > 0 {
      var d := Greedily(k - 1);
      assert Greedily(k)[1..] == d;
      LetterRuns(flags, input, instr, at, d);
      LettersTaken(flags, input, instr, at.(position := at.position + 1), k - 1);
    }
  }

  /** There is no other. */
  lemma {:induction false} OnlyLettersTaken(flags: Flags, input: seq<u16>, instr: Instr, at: Place, d: seq<bool>) returns (k: nat)
    requires Regular(flags, Atom(instr)) && at.position <= |input|
    requires var r := Turns(flags, input, Atom(instr), 0, None, false, at, d); r.Reached? && r.value.1 == []
    ensures d == Greedily(k) && LettersFrom(flags, input, instr, at.position, at.position + k)
    ensures Turns(flags, input, Atom(instr), 0, None, false, at, d).value.0 == at.(position := at.position + k)
    decreases |d|
  {
    hide Runs, IsLetter;
    assert d == [d[0]] + d[1..];
    k := 0;
    if !d[0] {
      LetterRuns(flags, input, instr, at, d[1..]);
      k := OnlyLettersTaken(flags, input, instr, at.(position := at.position + 1), d[1..]);
      k := k + 1;
    }
  }

  /** A greedy repetition of a letter takes all there are. */
  lemma GreedyTakesMost(flags: Flags, input: seq<u16>, instr: Instr, start: nat, d: seq<bool>, slots: Slots) returns (q: nat)
    requires Regular(flags, Atom(instr)) && start <= |input|
    requires TreeFirst(flags, input, Repeat(Atom(instr), 0, None, false), start, d, slots)
    ensures start <= q <= |input| && slots[1] == Min(q, U32_MAX)
    ensures LettersFrom(flags, input, instr, start, q) && (q == |input| || !IsLetter(flags, instr, input[q]))
  {
    hide IsLetter, Before;
    var t, at := Repeat(Atom(instr), 0, None, false), Opening(start);
    var k := OnlyLettersTaken(flags, input, instr, at, d);
    q := start + k;
    if q < |input| && IsLetter(flags, instr, input[q]) {
      LettersTaken(flags, input, instr, at, k + 1);
      assert TreeAccepts(flags, input, t, start, Greedily(k + 1), at.slots[1 := Clip(q + 1)]);
      MoreIsNotLater(k);
    }
  }

  /** A lazy repetition that may be empty takes nothing. */
  lemma LazyTakesLeast(flags: Flags, input: seq<u16>, body: Regex, max: Option<nat>, start: nat, d: seq<bool>, slots: Slots)
    requires start <= |input| && TreeFirst(flags, input, Repeat(body, 0, max, true), start, d, slots)
    ensures Captured(Opening(start), slots)
  {
    hide Before;
    var t := Repeat(body, 0, max, true);
    assert Runs(flags, input, t, Opening(start), d) == Turns(flags, input, body, 0, max, true, Opening(start), d);
    if max != Some(0) {
      assert Turns(flags, input, body, 0, max, true, Opening(start), [false]) == Reached((Opening(start), []));
      assert TreeAccepts(flags, input, t, start, [false], Opening(start).slots[1 := Clip(start)]);
      NothingFirst(d);
    }
  }

  lemma NothingFirst(d: seq<bool>)
    ensures !Before(d, [false])
  {}

  // ----- what moves forward -----

  /** A tree counts as moving forward exactly when the empty word is no word of it. */
  lemma {:induction false} AdvancesExactly(flags: Flags, t: Regex)
    requires Regular(flags, t) && Proper(t)
    ensures T.Advances(t) <==> !InLanguage(flags, t, [])
    decreases t, 0
  {
    hide InPower;
    match t
    case Empty =>
    case Atom(_) =>
    case Then(left, right) =>
      AdvancesExactly(flags, left);
      AdvancesExactly(flags, right);
      EmptyCut(flags, left, right);
    case Either(left, right) =>
      AdvancesExactly(flags, left);
      AdvancesExactly(flags, right);
    case Repeat(body, min, max, isLazy) =>
      AdvancesExactly(flags, body);
      EmptyTurns(flags, body, min, max, isLazy);
    case Group(_, body) => AdvancesExactly(flags, body);
  }

  lemma EmptyCut(flags: Flags, left: Regex, right: Regex)
    ensures InLanguage(flags, Then(left, right), []) <==> InLanguage(flags, left, []) && InLanguage(flags, right, [])
  {
    var w: seq<u16> := [];
    assert w[..0] == w && w[0..] == w;
  }

  lemma EmptyTurns(flags: Flags, body: Regex, min: nat, max: Option<nat>, isLazy: bool)
    requires max.Some? ==> min <= max.value
    ensures InLanguage(flags, Repeat(body, min, max, isLazy), []) <==> min == 0 || InLanguage(flags, body, [])
  {
    EmptyPower(flags, body, min);
    forall n: nat | Allowed(min, max, n) && InPower(flags, body, n, []) ensures min == 0 || InLanguage(flags, body, []) {
      EmptyPower(flags, body, n);
    }
    hide InPower;
    assert Allowed(min, max, min);
  }

  lemma {:induction false} EmptyPower(flags: Flags, body: Regex, n: nat)
    ensures InPower(flags, body, n, []) <==> n == 0 || InLanguage(flags, body, [])
    decreases n
  {
    hide InLanguage;
    var w: seq<u16> := [];
    assert w[..0] == w && w[0..] == w;
    if n > 0 { EmptyPower(flags, body, n - 1); }
  }

  /** A tree and all the trees in it. */
  function Parts(t: Regex): set<Regex> {
    {t} + match t
          case Then(left, right) => Parts(left) + Parts(right)
          case Either(left, right) => Parts(left) + Parts(right)
          case Repeat(body, _, _, _) => Parts(body)
          case Group(_, body) => Parts(body)
          case _ => {}
  }

  /** The trees every search decides are those in which no body repeated without a bound
      has the empty word. */
  lemma {:induction false} TerminatingExactly(flags: Flags, t: Regex)
    requires Regular(flags, t) && Proper(t)
    ensures T.Terminating(t) <==>
            forall s :: s in Parts(t) && s.Repeat? && s.max.None? ==> !InLanguage(flags, s.body, [])
  {
    hide InLanguage, T.Advances;
    match t
    case Empty =>
    case Atom(_) =>
    case Then(left, right) =>
      TerminatingExactly(flags, left);
      TerminatingExactly(flags, right);
    case Either(left, right) =>
      TerminatingExactly(flags, left);
      TerminatingExactly(flags, right);
    case Repeat(body, _, _, _) =>
      TerminatingExactly(flags, body);
      AdvancesExactly(flags, body);
      assert t in Parts(t);
    case Group(_, body) => TerminatingExactly(flags, body);
  }
}
