/** What the matcher finds when it runs the code of a tree. */
module PatternTheorems {
  import opened Words
  import opened PatternPrograms
  import opened PatternTrees
  import opened PatternMeaning

  /** Compiled code: a match at the end, and the name table no instruction reaches. */
  function Compiled(t: Regex, flags: Flags, names: seq<byte>): Program {
    Program(Code(t) + [MATCH] + names, flags)
  }

  function Opening(start: nat): Place { Place(start, Started(start, []).config.slots) }

  /** The tree matches from `start` under exactly these decisions, with these captures. */
  predicate TreeAccepts(flags: Flags, input: seq<u16>, t: Regex, start: nat, d: seq<bool>, slots: Slots)
    requires start <= |input|
  {
    var r := Runs(flags, input, t, Opening(start), d);
    r.Reached? && r.value.1 == [] && slots == r.value.0.slots[1 := Clip(r.value.0.position)]
  }

  /** The tree's match of highest priority. */
  ghost predicate TreeFirst(flags: Flags, input: seq<u16>, t: Regex, start: nat, d: seq<bool>, slots: Slots)
    requires start <= |input|
  {
    && TreeAccepts(flags, input, t, start, d, slots)
    && forall e, s :: TreeAccepts(flags, input, t, start, e, s) ==> (e == d && s == slots) || Before(d, e)
  }

  /** Where the compiled code ends up under given decisions. */
  lemma CompiledEnds(t: Regex, flags: Flags, names: seq<byte>, input: seq<u16>, start: nat, d: seq<bool>) returns (n: nat)
    requires Proper(t) && |Code(t)| <= FAR && start <= |input|
    ensures var o := After(Compiled(t, flags, names), input, Started(start, d), n);
            var r := Runs(flags, input, t, Opening(start), d);
            if r.Reached? then o == Matched(r.value.0.slots[1 := Clip(r.value.0.position)], r.value.1)
            else if r.Fails? then o.Failed? else o.Starved?
  {
    hide Runs, Code;
    var p, at := Compiled(t, flags, names), Opening(start);
    CodeFollows(p, input, t);
    CodePlaced(t, flags, names);
    MovedTo(p, input, Code(t), t, 0);
    Implemented(p, input, 0, |Code(t)|, t, at, d);
    var r := Runs(flags, input, t, at, d);
    assert Standing(0, at, d) == Started(start, d).config;
    n :| Ends(After(p, input, Running(Standing(0, at, d)), n), 0 + |Code(t)|, r);
    if r.Reached? {
      hide Next;
      var c := Standing(|Code(t)|, r.value.0, r.value.1);
      MatchesThere(p, input, c);
      AfterSum(p, input, Started(start, d), n, 1);
      assert After(p, input, Running(c), 1) == After(p, input, Next(p, input, c), 0);
      n := n + 1;
    }
  }

  lemma CodePlaced(t: Regex, flags: Flags, names: seq<byte>)
    ensures var code := Compiled(t, flags, names).code;
            Placed(code, 0, Code(t)) && |Code(t)| < |code| && code[|Code(t)|] == MATCH
  {
    hide Code;
  }

  lemma MatchesThere(p: Program, input: seq<u16>, c: Config)
    requires c.position <= |input| && c.pc < |p.code| && p.code[c.pc] == MATCH
    ensures Next(p, input, c) == Matched(c.slots[1 := Clip(c.position)], c.pending)
  {}

  /** Compiling preserves meaning: the same decisions lead to the same captures. */
  lemma CompiledAccepts(t: Regex, flags: Flags, names: seq<byte>, input: seq<u16>, start: nat, d: seq<bool>, slots: Slots)
    requires Proper(t) && |Code(t)| <= FAR && start <= |input|
    ensures Accepts(Compiled(t, flags, names), input, start, d, slots) <==> TreeAccepts(flags, input, t, start, d, slots)
  {
    hide Runs, Code, After;
    var p := Compiled(t, flags, names);
    var n := CompiledEnds(t, flags, names, input, start, d);
    var o := Started(start, d);
    if Accepts(p, input, start, d, slots) {
      var m: nat :| After(p, input, o, m) == Matched(slots, []);
      OneEnding(p, input, o, m, n);
    }
  }

  lemma CompiledNeverStops(t: Regex, flags: Flags, names: seq<byte>, input: seq<u16>, start: nat)
    requires Proper(t) && |Code(t)| <= FAR && start <= |input|
    ensures !CanStop(Compiled(t, flags, names), input, start)
  {
    hide Runs, Code, After;
    var p := Compiled(t, flags, names);
    if CanStop(p, input, start) {
      var d: seq<bool>, m: nat :| After(p, input, Started(start, d), m) == Stopped;
      var n := CompiledEnds(t, flags, names, input, start, d);
      OneEnding(p, input, Started(start, d), m, n);
    }
  }

  /** Searching compiled code finds the tree's first match, and finds none exactly when the tree has none. */
  lemma CompiledSearch(t: Regex, flags: Flags, names: seq<byte>, input: seq<u16>, start: nat)
    requires Proper(t) && |Code(t)| <= FAR && start <= |input|
    ensures forall d, s :: First(Compiled(t, flags, names), input, start, d, s) <==> TreeFirst(flags, input, t, start, d, s)
    ensures NoMatch(Compiled(t, flags, names), input, start) <==> forall d, s :: !TreeAccepts(flags, input, t, start, d, s)
  {
    hide Runs, Code, Accepts, TreeAccepts, Compiled;
    var p := Compiled(t, flags, names);
    forall d, s
      ensures Accepts(p, input, start, d, s) <==> TreeAccepts(flags, input, t, start, d, s)
    {
      CompiledAccepts(t, flags, names, input, start, d, s);
    }
  }
}
