/** What a pattern matches, said without instructions run or decisions taken: the ways
    of a tree through the input, and the words of a regular one. */
module PatternLanguages {
  import opened Words
  import opened PatternPrograms
  import opened PatternTrees
  import opened PatternTheorems

  // ----- what one instruction matches -----

  predicate EndsLine(point: int) { point in {0x0A, 0x0D, 0x2028, 0x2029} }

  predicate Wordlike(unit: int) {
    'a' as int <= unit <= 'z' as int || 'A' as int <= unit <= 'Z' as int || '0' as int <= unit <= '9' as int || unit == '_' as int
  }

  /** Upper-case letters of ASCII and Latin-1, each 32 below its lower case. */
  predicate Upper(unit: u16) { 0x41 <= unit <= 0x5A || (0xC0 <= unit <= 0xDE && unit != 0xD7) }

  predicate SameLetter(a: u16, b: u16) { a == b || (Upper(a) && b == a + 32) || (Upper(b) && a == b + 32) }

  lemma FoldsAlike(a: u16, b: u16)
    ensures Fold(a) == Fold(b) <==> SameLetter(a, b)
  {}

  /** The signs for kelvin and angstrom and the long s. */
  predicate Special(unit: u16, lower: u16) { (unit, lower) in {(0x212A, 0x6B), (0x212B, 0xE5), (0x17F, 0x73)} }

  predicate Lowers(flags: Flags, unit: u16, lower: u16) {
    || (flags.unicode && Special(unit, lower))
    || (SameLetter(unit, lower) && !Upper(lower) && !(flags.unicode && lower in {0x212A, 0x212B, 0x17F}))
  }

  predicate HighHalf(unit: u16) { 0xD800 <= unit <= 0xDBFF }

  predicate LowHalf(unit: u16) { 0xDC00 <= unit <= 0xDFFF }

  /** The units from `p` to `q` are the UTF-16 form of a code point; a half that no
      other half completes stands for itself. */
  predicate Spells(input: seq<u16>, p: nat, q: nat, point: int)
    requires p <= q <= |input|
  {
    || (q == p + 1 && point == input[p] && !(HighHalf(input[p]) && q < |input| && LowHalf(input[q])))
    || (q == p + 2 && 0x1_0000 <= point <= 0x10_FFFF
        && input[p] == 0xD800 + (point - 0x1_0000) / 0x400 && input[p + 1] == 0xDC00 + (point - 0x1_0000) % 0x400)
  }

  predicate OneOf(flags: Flags, unit: u16, ranges: seq<(u16, u16)>) {
    exists i :: 0 <= i < |ranges| &&
      var (low, high) := ranges[i];
      low <= unit <= high || (flags.ignoreCase && low <= high && Fold(low) <= Fold(unit) <= Fold(high))
  }

  predicate OneOfWide(flags: Flags, point: int, ranges: seq<(u32, u32)>) {
    exists i :: 0 <= i < |ranges| &&
      var (low, high) := ranges[i];
      low <= point <= high || (flags.ignoreCase && 0 <= point < 0x1_0000 && low <= Fold(point) <= high)
  }

  predicate SameText(flags: Flags, a: seq<u16>, b: seq<u16>) {
    |a| == |b| && forall i :: 0 <= i < |a| ==> if flags.ignoreCase then SameLetter(a[i], b[i]) else a[i] == b[i]
  }

  /** What each instruction matches, as a fact about the units it stands between. */
  ghost predicate Does(flags: Flags, input: seq<u16>, instr: Instr, at: Place, there: Place) {
    var p, q := at.position, there.position;
    && p <= q <= |input|
    && (!instr.Save? ==> there.slots == at.slots)
    && match instr
       case Char(unit) => input[p..q] == [unit]
       case CharFolded(unit) => q == p + 1 && Lowers(flags, input[p], unit)
       case Any =>
         exists point: u32 ::
           && (if flags.unicode then Spells(input, p, q, point) else input[p..q] == [point])
           && (flags.dotAll || !EndsLine(point))
       case Class(negated, ranges) => q == p + 1 && (OneOf(flags, input[p], ranges) <==> !negated)
       case Class32(negated, ranges) =>
         exists point: u32 :: Spells(input, p, q, point) && (OneOfWide(flags, point, ranges) <==> !negated)
       case Save(slot) => q == p && slot < MAX_SLOTS && there.slots == at.slots[slot := Min(p, U32_MAX)]
       case AssertStart => q == p && (p == 0 || (flags.multiline && EndsLine(input[p - 1])))
       case AssertEnd => q == p && (p == |input| || (flags.multiline && EndsLine(input[p])))
       case WordBoundary(negated) =>
         q == p && (negated <==> (p > 0 && Wordlike(input[p - 1]) <==> p < |input| && Wordlike(input[p])))
       case Backreference(group) =>
         2 * group + 1 < MAX_SLOTS &&
         var start, end := at.slots[2 * group], at.slots[2 * group + 1];
         if start == U32_MAX || end == U32_MAX || end <= start then q == p
         else end <= |input| && SameText(flags, input[start..end], input[p..q])
  }

  ghost predicate Goes(flags: Flags, input: seq<u16>, instr: Instr, at: Place, there: Place)
    requires at.position <= |input|
  {
    Perform(flags, input, instr, at.position, at.slots) == Advance(there.position, there.slots)
  }

  lemma CharIs(flags: Flags, input: seq<u16>, unit: u16, at: Place, there: Place)
    requires at.position <= |input|
    ensures Goes(flags, input, Char(unit), at, there) <==> Does(flags, input, Char(unit), at, there)
  {
    var p, q := at.position, there.position;
    if p <= q <= |input| && input[p..q] == [unit] { assert input[p..q][0] == input[p]; }
    if Goes(flags, input, Char(unit), at, there) { assert input[p..q] == [unit]; }
  }

  lemma LowersIs(flags: Flags, unit: u16, lower: u16)
    ensures Lowers(flags, unit, lower) <==> (if flags.unicode then FoldUnicode(unit) else Fold(unit)) == lower
  {}

  lemma CharFoldedIs(flags: Flags, input: seq<u16>, unit: u16, at: Place, there: Place)
    requires at.position <= |input|
    ensures Goes(flags, input, CharFolded(unit), at, there) <==> Does(flags, input, CharFolded(unit), at, there)
  {
    if at.position < |input| { LowersIs(flags, input[at.position], unit); }
    hide Fold, FoldUnicode, Lowers;
  }

  /** Reading a code point is the inverse of its UTF-16 form. */
  lemma SpellsIs(input: seq<u16>, p: nat, q: nat, point: int)
    requires p < |input|
    ensures p <= q <= |input| && Spells(input, p, q, point) <==> (point, q) == (PointAt(input, p).0, p + PointAt(input, p).1)
  {
    if PairAt(input, p) {
      var high: int, low: int := input[p], input[p + 1];
      var z := (high - 0xD800) * 0x400 + (low - 0xDC00);
      DivisionUnique(z, 0x400, high - 0xD800, low - 0xDC00);
    }
  }

  lemma AnyIs(flags: Flags, input: seq<u16>, at: Place, there: Place)
    requires at.position <= |input|
    ensures Goes(flags, input, Any, at, there) <==> Does(flags, input, Any, at, there)
  {
    var p, q := at.position, there.position;
    if p < |input| {
      var (point, width) := PointAt(input, p);
      SpellsIs(input, p, q, point);
      assert !flags.unicode && q == p + 1 ==> input[p..q] == [input[p]];
      if Does(flags, input, Any, at, there) {
        var other: u32 :| (if flags.unicode then Spells(input, p, q, other) else input[p..q] == [other])
                          && (flags.dotAll || !EndsLine(other));
        SpellsIs(input, p, q, other);
        assert !flags.unicode ==> |input[p..q]| == 1 && input[p..q][0] == input[p];
      }
    }
  }

  lemma ClassIs(flags: Flags, input: seq<u16>, negated: bool, ranges: seq<(u16, u16)>, at: Place, there: Place)
    requires at.position <= |input|
    ensures Goes(flags, input, Class(negated, ranges), at, there) <==> Does(flags, input, Class(negated, ranges), at, there)
  {
    if at.position < |input| { OneOfIs(flags, input[at.position], ranges); }
    hide InClass, OneOf;
  }

  lemma OneOfIs(flags: Flags, unit: u16, ranges: seq<(u16, u16)>)
    ensures OneOf(flags, unit, ranges) <==> InClass(flags, unit, ranges)
  {
    hide Fold;
    if OneOf(flags, unit, ranges) {
      var i :| 0 <= i < |ranges| && var (low, high) := ranges[i];
               low <= unit <= high || (flags.ignoreCase && low <= high && Fold(low) <= Fold(unit) <= Fold(high));
      assert InRange(flags, unit, ranges[i]);
    }
  }

  lemma OneOfWideIs(flags: Flags, point: u32, ranges: seq<(u32, u32)>)
    ensures OneOfWide(flags, point, ranges) <==> InWideClass(flags, point, ranges)
  {
    hide Fold;
    if OneOfWide(flags, point, ranges) {
      var i :| 0 <= i < |ranges| && var (low, high) := ranges[i];
               low <= point <= high || (flags.ignoreCase && 0 <= point < 0x1_0000 && low <= Fold(point) <= high);
      assert InWideRange(flags, point, ranges[i]);
    }
  }

  lemma Class32Is(flags: Flags, input: seq<u16>, negated: bool, ranges: seq<(u32, u32)>, at: Place, there: Place)
    requires at.position <= |input|
    ensures Goes(flags, input, Class32(negated, ranges), at, there) <==> Does(flags, input, Class32(negated, ranges), at, there)
  {
    var p, q := at.position, there.position;
    if p < |input| {
      var (point, width) := PointAt(input, p);
      SpellsIs(input, p, q, point);
      OneOfWideIs(flags, point, ranges);
      hide InWideClass, OneOfWide, PointAt, Spells;
      if Does(flags, input, Class32(negated, ranges), at, there) {
        var other: u32 :| Spells(input, p, q, other) && (OneOfWide(flags, other, ranges) <==> !negated);
        SpellsIs(input, p, q, other);
      }
    }
  }

  lemma BackreferenceIs(flags: Flags, input: seq<u16>, group: byte, at: Place, there: Place)
    requires at.position <= |input|
    ensures Goes(flags, input, Backreference(group), at, there) <==> Does(flags, input, Backreference(group), at, there)
  {
    hide Repeats, SameText;
    if 2 * group + 1 < MAX_SLOTS {
      var start, end := at.slots[2 * group], at.slots[2 * group + 1];
      if start != U32_MAX && end != U32_MAX {
        RepeatsIs(flags, input, start, end, at.position, there.position);
      }
    }
  }

  lemma RepeatsIs(flags: Flags, input: seq<u16>, start: nat, end: nat, p: nat, q: nat)
    requires p <= |input|
    ensures end <= start ==> Repeats(flags, input, start, p, 0)
    ensures end > start ==> (Repeats(flags, input, start, p, end - start) && q == p + end - start
                             <==> p <= q <= |input| && end <= |input| && SameText(flags, input[start..end], input[p..q]))
  {
    if end > start {
      RepeatsFit(flags, input, start, p, end - start);
      if p + end - start <= |input| && end <= |input| { RepeatsText(flags, input, start, p, end - start); }
      if Repeats(flags, input, start, p, end - start) { assert SameUnit(flags, input, start, p, end - start - 1); }
    }
  }

  lemma RepeatsText(flags: Flags, input: seq<u16>, start: nat, p: nat, n: nat)
    requires start + n <= |input| && p + n <= |input|
    ensures Repeats(flags, input, start, p, n) <==> SameText(flags, input[start..start + n], input[p..p + n])
  {
    hide Fold, SameLetter;
    var a, b := input[start..start + n], input[p..p + n];
    forall i | 0 <= i < n
      ensures SameUnit(flags, input, start, p, i) <==> if flags.ignoreCase then SameLetter(a[i], b[i]) else a[i] == b[i]
    {
      FoldsAlike(a[i], b[i]);
    }
  }

  /** Each instruction goes from one place to another exactly when what it stands for is so. */
  lemma InstructionIs(flags: Flags, input: seq<u16>, instr: Instr, at: Place, there: Place)
    requires at.position <= |input|
    ensures Goes(flags, input, instr, at, there) <==> Does(flags, input, instr, at, there)
  {
    match instr
    case Char(unit) => CharIs(flags, input, unit, at, there);
    case CharFolded(unit) => CharFoldedIs(flags, input, unit, at, there);
    case Any => AnyIs(flags, input, at, there);
    case Class(negated, ranges) => ClassIs(flags, input, negated, ranges, at, there);
    case Class32(negated, ranges) => Class32Is(flags, input, negated, ranges, at, there);
    case Backreference(group) => BackreferenceIs(flags, input, group, at, there);
    case Save(_) =>
    case AssertStart =>
    case AssertEnd =>
    case WordBoundary(_) =>
  }

  // ----- the ways of a tree -----

  /** `t` has a way from one place to another. */
  ghost predicate Leads(flags: Flags, input: seq<u16>, t: Regex, at: Place, there: Place)
    decreases t, 0
  {
    match t
    case Empty => there == at
    case Atom(instr) => Does(flags, input, instr, at, there)
    case Then(left, right) =>
      exists mid: Place :: Leads(flags, input, left, at, mid) && Leads(flags, input, right, mid, there)
    case Either(left, right) => Leads(flags, input, left, at, there) || Leads(flags, input, right, at, there)
    case Repeat(body, min, max, _) => exists n: nat :: Allowed(min, max, n) && Loops(flags, input, body, n, at, there)
    case Group(index, body) =>
      2 * index + 1 < MAX_SLOTS &&
      exists mid: Place ::
        && Leads(flags, input, body, at.(slots := at.slots[2 * index := Min(at.position, U32_MAX)]), mid)
        && there == mid.(slots := mid.slots[2 * index + 1 := Min(mid.position, U32_MAX)])
  }

  predicate Allowed(min: nat, max: Option<nat>, n: nat) { min <= n && (max.Some? ==> n <= max.value) }

  /** `n` times the body, one after the other. */
  ghost predicate Loops(flags: Flags, input: seq<u16>, body: Regex, n: nat, at: Place, there: Place)
    decreases body, 1, n
  {
    if n == 0 then there == at
    else exists mid: Place :: Leads(flags, input, body, at, mid) && Loops(flags, input, body, n - 1, mid, there)
  }

  /** A way stays inside the input and never goes back. */
  lemma {:induction false} LeadsOn(flags: Flags, input: seq<u16>, t: Regex, at: Place, there: Place)
    requires at.position <= |input| && Leads(flags, input, t, at, there)
    ensures at.position <= there.position <= |input|
    decreases t, 0
  {
    hide Does;
    match t
    case Empty =>
    case Atom(instr) => DoesOn(flags, input, instr, at, there);
    case Then(left, right) =>
      var mid: Place :| Leads(flags, input, left, at, mid) && Leads(flags, input, right, mid, there);
      LeadsOn(flags, input, left, at, mid);
      LeadsOn(flags, input, right, mid, there);
    case Either(left, right) =>
      if Leads(flags, input, left, at, there) { LeadsOn(flags, input, left, at, there); }
      else { LeadsOn(flags, input, right, at, there); }
    case Repeat(body, min, max, _) =>
      var n: nat :| Allowed(min, max, n) && Loops(flags, input, body, n, at, there);
      LoopsOn(flags, input, body, n, at, there);
    case Group(index, body) =>
      var inner := at.(slots := at.slots[2 * index := Min(at.position, U32_MAX)]);
      var mid: Place :| Leads(flags, input, body, inner, mid)
                        && there == mid.(slots := mid.slots[2 * index + 1 := Min(mid.position, U32_MAX)]);
      LeadsOn(flags, input, body, inner, mid);
  }

  lemma DoesOn(flags: Flags, input: seq<u16>, instr: Instr, at: Place, there: Place)
    requires Does(flags, input, instr, at, there)
    ensures at.position <= there.position <= |input|
  {}

  lemma {:induction false} LoopsOn(flags: Flags, input: seq<u16>, body: Regex, n: nat, at: Place, there: Place)
    requires at.position <= |input| && Loops(flags, input, body, n, at, there)
    ensures at.position <= there.position <= |input|
    decreases body, 1, n
  {
    hide Leads;
    if n > 0 {
      var mid: Place :| Leads(flags, input, body, at, mid) && Loops(flags, input, body, n - 1, mid, there);
      LeadsOn(flags, input, body, at, mid);
      LoopsOn(flags, input, body, n - 1, mid, there);
    }
  }

  // ----- decisions take ways -----

  lemma PerformsIs(flags: Flags, input: seq<u16>, instr: Instr, at: Place, d: seq<bool>, there: Place)
    requires at.position <= |input|
    ensures Performs(flags, input, instr, at, d) == Reached((there, d)) <==> Does(flags, input, instr, at, there)
    ensures Performs(flags, input, instr, at, d).Reached? ==> Performs(flags, input, instr, at, d).value.1 == d
  {
    InstructionIs(flags, input, instr, at, there);
    hide Perform, Does;
  }

  /** Where decisions lead, a way leads. */
  lemma {:induction false} RunsLead(flags: Flags, input: seq<u16>, t: Regex, at: Place, d: seq<bool>)
    requires at.position <= |input| && Proper(t) && Runs(flags, input, t, at, d).Reached?
    ensures Leads(flags, input, t, at, Runs(flags, input, t, at, d).value.0)
    decreases t, 0, 0, 0
  {
    hide Performs, Does;
    var (there, rest) := Runs(flags, input, t, at, d).value;
    match t
    case Empty =>
    case Atom(instr) => PerformsIs(flags, input, instr, at, d, there);
    case Then(left, right) =>
      RunsLead(flags, input, left, at, d);
      var r := Runs(flags, input, left, at, d).value;
      RunsLead(flags, input, right, r.0, r.1);
    case Either(left, right) => RunsLead(flags, input, if d[0] then right else left, at, d[1..]);
    case Repeat(body, min, max, isLazy) =>
      var n := TurnsLoop(flags, input, body, min, max, isLazy, at, d);
      assert Allowed(min, max, n);
    case Group(index, body) => GroupLeads(flags, input, index, body, at, d);
  }

  lemma {:induction false} GroupLeads(flags: Flags, input: seq<u16>, index: nat, body: Regex, at: Place, d: seq<bool>)
    requires at.position <= |input| && index <= MAX_GROUPS && Proper(body) && Runs(flags, input, Group(index, body), at, d).Reached?
    ensures Leads(flags, input, Group(index, body), at, Runs(flags, input, Group(index, body), at, d).value.0)
    decreases body, 1, 0, 0
  {
    hide Performs, Leads;
    var inner := at.(slots := at.slots[2 * index := Min(at.position, U32_MAX)]);
    SaveReaches(flags, input, 2 * index, at, d);
    RunsLead(flags, input, body, inner, d);
    var r := Runs(flags, input, body, inner, d).value;
    SaveReaches(flags, input, 2 * index + 1, r.0, r.1);
    GroupWay(flags, input, index, body, at, r.0);
  }

  lemma GroupWay(flags: Flags, input: seq<u16>, index: nat, body: Regex, at: Place, mid: Place)
    requires index <= MAX_GROUPS
    requires Leads(flags, input, body, at.(slots := at.slots[2 * index := Min(at.position, U32_MAX)]), mid)
    ensures Leads(flags, input, Group(index, body), at, mid.(slots := mid.slots[2 * index + 1 := Min(mid.position, U32_MAX)]))
  {}

  lemma SaveReaches(flags: Flags, input: seq<u16>, slot: nat, at: Place, d: seq<bool>)
    requires at.position <= |input| && slot < MAX_SLOTS
    ensures Performs(flags, input, Save(Slot(slot)), at, d) == Reached((at.(slots := at.slots[slot := Min(at.position, U32_MAX)]), d))
  {}

  lemma {:induction false} TurnsLoop(flags: Flags, input: seq<u16>, body: Regex, min: nat, max: Option<nat>, isLazy: bool,
                                     at: Place, d: seq<bool>) returns (n: nat)
    requires at.position <= |input| && Proper(body) && Turns(flags, input, body, min, max, isLazy, at, d).Reached?
    ensures min <= n && (max.Some? ==> n <= Max(min, max.value))
    ensures Loops(flags, input, body, n, at, Turns(flags, input, body, min, max, isLazy, at, d).value.0)
    decreases body, 1, min, |d|
  {
    hide Runs, Leads;
    n := 0;
    if min > 0 {
      RunsLead(flags, input, body, at, d);
      var r := Runs(flags, input, body, at, d).value;
      n := TurnsLoop(flags, input, body, min - 1, OneLess(max), isLazy, r.0, r.1);
      n := n + 1;
    } else if max != Some(0) && d[0] == isLazy {
      RunsLead(flags, input, body, at, d[1..]);
      var r := Runs(flags, input, body, at, d[1..]).value;
      n := TurnsLoop(flags, input, body, 0, OneLess(max), isLazy, r.0, r.1);
      n := n + 1;
    }
  }

  /** These decisions lead there, and use no others. */
  ghost predicate Steers(flags: Flags, input: seq<u16>, t: Regex, at: Place, there: Place, d: seq<bool>)
    requires at.position <= |input|
  {
    forall rest: seq<bool> :: Runs(flags, input, t, at, d + rest) == Reached((there, rest))
  }

  ghost predicate SteersTurns(flags: Flags, input: seq<u16>, body: Regex, min: nat, max: Option<nat>, isLazy: bool,
                              at: Place, there: Place, d: seq<bool>)
    requires at.position <= |input|
  {
    forall rest: seq<bool> :: Turns(flags, input, body, min, max, isLazy, at, d + rest) == Reached((there, rest))
  }

  /** Where a way leads, some decisions lead. */
  lemma {:induction false} LeadsRun(flags: Flags, input: seq<u16>, t: Regex, at: Place, there: Place) returns (d: seq<bool>)
    requires at.position <= |input| && Proper(t) && Leads(flags, input, t, at, there)
    ensures Steers(flags, input, t, at, there, d)
    decreases t, 0
  {
    hide Does, Runs, Loops, Steers, Allowed;
    d := [];
    match t
    case Empty => EmptySteers(flags, input, at);
    case Atom(instr) => AtomSteers(flags, input, instr, at, there);
    case Then(left, right) =>
      var mid: Place :| Leads(flags, input, left, at, mid) && Leads(flags, input, right, mid, there);
      LeadsOn(flags, input, left, at, mid);
      var a := LeadsRun(flags, input, left, at, mid);
      var b := LeadsRun(flags, input, right, mid, there);
      ThenSteers(flags, input, left, right, at, mid, there, a, b);
      d := a + b;
    case Either(left, right) =>
      if Leads(flags, input, left, at, there) {
        var a := LeadsRun(flags, input, left, at, there);
        EitherSteers(flags, input, left, right, at, there, a, false);
        d := [false] + a;
      } else {
        var b := LeadsRun(flags, input, right, at, there);
        EitherSteers(flags, input, left, right, at, there, b, true);
        d := [true] + b;
      }
    case Repeat(body, min, max, isLazy) =>
      var n: nat :| Allowed(min, max, n) && Loops(flags, input, body, n, at, there);
      AllowedIs(min, max, n);
      d := LoopsTurn(flags, input, body, min, max, isLazy, n, at, there);
      RepeatSteers(flags, input, body, min, max, isLazy, at, there, d);
    case Group(index, body) =>
      var inner := at.(slots := at.slots[2 * index := Min(at.position, U32_MAX)]);
      var mid: Place :| Leads(flags, input, body, inner, mid)
                        && there == mid.(slots := mid.slots[2 * index + 1 := Min(mid.position, U32_MAX)]);
      LeadsOn(flags, input, body, inner, mid);
      d := LeadsRun(flags, input, body, inner, mid);
      GroupSteers(flags, input, index, body, at, mid, d);
  }

  lemma AllowedIs(min: nat, max: Option<nat>, n: nat)
    requires Allowed(min, max, n)
    ensures min <= n && (max.Some? ==> n <= Max(min, max.value))
  {}

  lemma EmptySteers(flags: Flags, input: seq<u16>, at: Place)
    requires at.position <= |input|
    ensures Steers(flags, input, Empty, at, at, [])
  {
    forall rest: seq<bool> ensures Runs(flags, input, Empty, at, [] + rest) == Reached((at, rest)) {
      assert [] + rest == rest;
    }
  }

  lemma AtomSteers(flags: Flags, input: seq<u16>, instr: Instr, at: Place, there: Place)
    requires at.position <= |input| && Does(flags, input, instr, at, there)
    ensures Steers(flags, input, Atom(instr), at, there, [])
  {
    hide Does, Performs;
    forall rest: seq<bool> ensures Runs(flags, input, Atom(instr), at, [] + rest) == Reached((there, rest)) {
      assert [] + rest == rest;
      PerformsIs(flags, input, instr, at, rest, there);
    }
  }

  lemma ThenSteers(flags: Flags, input: seq<u16>, left: Regex, right: Regex, at: Place, mid: Place, there: Place, a: seq<bool>, b: seq<bool>)
    requires at.position <= |input| && mid.position <= |input|
    requires Steers(flags, input, left, at, mid, a) && Steers(flags, input, right, mid, there, b)
    ensures Steers(flags, input, Then(left, right), at, there, a + b)
  {
    forall rest: seq<bool> ensures Runs(flags, input, Then(left, right), at, a + b + rest) == Reached((there, rest)) {
      assert a + b + rest == a + (b + rest);
      assert Runs(flags, input, left, at, a + (b + rest)) == Reached((mid, b + rest));
    }
  }

  lemma EitherSteers(flags: Flags, input: seq<u16>, left: Regex, right: Regex, at: Place, there: Place, d: seq<bool>, second: bool)
    requires at.position <= |input| && Steers(flags, input, if second then right else left, at, there, d)
    ensures Steers(flags, input, Either(left, right), at, there, [second] + d)
  {
    forall rest: seq<bool> ensures Runs(flags, input, Either(left, right), at, [second] + d + rest) == Reached((there, rest)) {
      assert ([second] + d + rest)[1..] == d + rest;
    }
  }

  lemma RepeatSteers(flags: Flags, input: seq<u16>, body: Regex, min: nat, max: Option<nat>, isLazy: bool, at: Place, there: Place, d: seq<bool>)
    requires at.position <= |input| && SteersTurns(flags, input, body, min, max, isLazy, at, there, d)
    ensures Steers(flags, input, Repeat(body, min, max, isLazy), at, there, d)
  {
    hide Turns;
    forall rest: seq<bool> ensures Runs(flags, input, Repeat(body, min, max, isLazy), at, d + rest) == Reached((there, rest)) {
      assert Turns(flags, input, body, min, max, isLazy, at, d + rest) == Reached((there, rest));
    }
  }

  lemma GroupSteers(flags: Flags, input: seq<u16>, index: nat, body: Regex, at: Place, mid: Place, d: seq<bool>)
    requires at.position <= |input| && mid.position <= |input| && index <= MAX_GROUPS
    requires Steers(flags, input, body, at.(slots := at.slots[2 * index := Min(at.position, U32_MAX)]), mid, d)
    ensures Steers(flags, input, Group(index, body), at, mid.(slots := mid.slots[2 * index + 1 := Min(mid.position, U32_MAX)]), d)
  {
    hide Performs;
    var inner := at.(slots := at.slots[2 * index := Min(at.position, U32_MAX)]);
    var there := mid.(slots := mid.slots[2 * index + 1 := Min(mid.position, U32_MAX)]);
    forall rest: seq<bool> ensures Runs(flags, input, Group(index, body), at, d + rest) == Reached((there, rest)) {
      SaveReaches(flags, input, 2 * index, at, d + rest);
      SaveReaches(flags, input, 2 * index + 1, mid, rest);
      assert Runs(flags, input, body, inner, d + rest) == Reached((mid, rest));
    }
  }

  lemma {:induction false} LoopsTurn(flags: Flags, input: seq<u16>, body: Regex, min: nat, max: Option<nat>, isLazy: bool,
                                     n: nat, at: Place, there: Place) returns (d: seq<bool>)
    requires at.position <= |input| && Proper(body) && Loops(flags, input, body, n, at, there)
    requires min <= n && (max.Some? ==> n <= Max(min, max.value))
    ensures SteersTurns(flags, input, body, min, max, isLazy, at, there, d)
    decreases body, 1, n
  {
    hide Runs, Turns, Leads, Steers, SteersTurns;
    if n == 0 {
      d := if max == Some(0) then [] else [!isLazy];
      StopSteers(flags, input, body, max, isLazy, at);
    } else {
      var mid: Place :| Leads(flags, input, body, at, mid) && Loops(flags, input, body, n - 1, mid, there);
      LeadsOn(flags, input, body, at, mid);
      var a := LeadsRun(flags, input, body, at, mid);
      var b := LoopsTurn(flags, input, body, if min > 0 then min - 1 else 0, OneLess(max), isLazy, n - 1, mid, there);
      TurnSteers(flags, input, body, min, max, isLazy, at, mid, there, a, b);
      d := (if min > 0 then [] else [isLazy]) + a + b;
    }
  }

  lemma StopSteers(flags: Flags, input: seq<u16>, body: Regex, max: Option<nat>, isLazy: bool, at: Place)
    requires at.position <= |input|
    ensures SteersTurns(flags, input, body, 0, max, isLazy, at, at, if max == Some(0) then [] else [!isLazy])
  {
    hide Runs;
    var d := if max == Some(0) then [] else [!isLazy];
    forall rest: seq<bool> ensures Turns(flags, input, body, 0, max, isLazy, at, d + rest) == Reached((at, rest)) {
      assert max == Some(0) ==> d + rest == rest;
      assert max != Some(0) ==> (d + rest)[1..] == rest;
    }
  }

  lemma TurnSteers(flags: Flags, input: seq<u16>, body: Regex, min: nat, max: Option<nat>, isLazy: bool,
                   at: Place, mid: Place, there: Place, a: seq<bool>, b: seq<bool>)
    requires at.position <= |input| && mid.position <= |input| && (min > 0 || max != Some(0))
    requires Steers(flags, input, body, at, mid, a)
    requires SteersTurns(flags, input, body, if min > 0 then min - 1 else 0, OneLess(max), isLazy, mid, there, b)
    ensures SteersTurns(flags, input, body, min, max, isLazy, at, there, (if min > 0 then [] else [isLazy]) + a + b)
  {
    hide Runs;
    var d := (if min > 0 then [] else [isLazy]) + a + b;
    forall rest: seq<bool> ensures Turns(flags, input, body, min, max, isLazy, at, d + rest) == Reached((there, rest)) {
      assert min > 0 ==> d + rest == a + (b + rest);
      assert min == 0 ==> (d + rest)[1..] == a + (b + rest);
      assert Runs(flags, input, body, at, a + (b + rest)) == Reached((mid, b + rest));
    }
  }

  /** A tree's decisions lead exactly where its ways do. */
  lemma DecisionsTakeWays(flags: Flags, input: seq<u16>, t: Regex, at: Place, there: Place)
    requires at.position <= |input| && Proper(t)
    ensures (exists d :: Runs(flags, input, t, at, d) == Reached((there, []))) <==> Leads(flags, input, t, at, there)
  {
    hide Runs, Leads, Proper;
    if d :| Runs(flags, input, t, at, d) == Reached((there, [])) { RunsLead(flags, input, t, at, d); }
    if Leads(flags, input, t, at, there) {
      var d := LeadsRun(flags, input, t, at, there);
      assert Runs(flags, input, t, at, d + []) == Reached((there, []));
    }
  }
}
