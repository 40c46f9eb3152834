/** Linking: an iterative depth-first walk over the imports, in storage its caller
    lends it. */
module Linker {
  import opened Words
  import opened ImportGraphs
  import opened Registries

  // ----- what a walk does to the records -----

  /** A module's status after the walk has entered or finished it. */
  function StatusFor(status: Status, before: Mark, now: Mark): Status {
    if now.Visiting? && status.New? then Linking
    else if now.Done? && !before.Done? && (status.New? || status.Linking?) then Linked
    else status
  }

  predicate Follows(b: Record, a: Record, before: Mark, now: Mark) {
    && a == b.(status := StatusFor(b.status, before, now), order := a.order)
    && (now != Done || before == Done ==> a.order == b.order)
  }

  /** The records follow the walk, and modules it finished have their position. */
  ghost predicate Tracks(before: seq<Record>, after: seq<Record>, start: seq<Mark>, w: Walk) {
    && |start| == |w.marks| <= |before| == |after|
    && (forall m :: 0 <= m < |start| ==> Follows(before[m], after[m], start[m], w.marks[m]))
    && (forall m :: |start| <= m < |before| ==> after[m] == before[m])
    && (forall p :: 0 <= p < |w.finished| && 0 <= w.finished[p] < |start| && start[w.finished[p]] != Done ==>
          after[w.finished[p]].order == p)
  }

  /** The walk in its caller's storage. */
  ghost predicate Underway(r: Registry, stack: array<Frame>, state: array<Mark>, depth: nat, g: Graph,
                           before: seq<Record>, start: seq<Mark>, root: nat, w: Walk)
    reads r, stack, state
  {
    && r.count == |g| <= state.Length && depth <= stack.Length
    && w.marks == state[..|g|] && w.frames == stack[..depth]
    && Laid(r.records, r.count, |r.imports|) && r.Edges() == g
    && Walking(g, start, root, w) && Tracks(before, r.records, start, w)
  }

  /** A mark and the status that goes with it. */
  lemma TracksMark(before: seq<Record>, after: seq<Record>, start: seq<Mark>, w: Walk, m: nat, mark: Mark, a: Record, w': Walk)
    requires Tracks(before, after, start, w) && m < |start| && start[m] != Done && m !in w.finished
    requires w'.marks == w.marks[m := mark] && Follows(before[m], a, start[m], mark)
    requires w'.finished == w.finished || (w'.finished == w.finished + [m] && a.order == |w.finished|)
    ensures Tracks(before, after[m := a], start, w')
  {}

  /** The graph survives a walk. */
  lemma TracksGraph(before: seq<Record>, after: seq<Record>, start: seq<Mark>, w: Walk, imports: seq<Import>)
    requires Tracks(before, after, start, w) && Laid(before, |start|, |imports|)
    ensures Laid(after, |start|, |imports|) && GraphOf(after, |start|, imports) == GraphOf(before, |start|, imports)
  {
    assert forall i :: 0 <= i < |start| ==> Follows(before[i], after[i], start[i], w.marks[i]);
    SameGraph(before, after, |start|, imports);
  }

  // ----- entering and leaving a module -----

  method MarkVisiting(r: Registry, state: array<Mark>, m: nat) returns (error: Option<Rejection>)
    requires m < |r.records| && m < state.Length
    modifies r`records, state
    ensures error.None? && state[..] == old(state[..])[m := Visiting]
    ensures r.records == old(r.records)[m := old(r.records)[m].(status := StatusFor(old(r.records)[m].status, Unvisited, Visiting))]
  {
    state[m] := Visiting;
    if r.records[m].status == New {
      error := r.SetStatus(m, Linking);
      return;
    }
    return None;
  }

  method MarkDone(r: Registry, state: array<Mark>, m: nat, order: nat) returns (error: Option<Rejection>)
    requires m < |r.records| && m < state.Length
    modifies r`records, state
    ensures error.None? && state[..] == old(state[..])[m := Done]
    ensures r.records == old(r.records)[m := old(r.records)[m].(order := order,
      status := if old(r.records)[m].status == Linking then Linked else old(r.records)[m].status)]
  {
    state[m] := Done;
    error := r.SetOrder(m, order);
    if error.Some? { return; }
    if r.records[m].status == Linking { error := r.SetStatus(m, Linked); }
  }

  method Push(stack: array<Frame>, depth: nat, m: nat) returns (error: Option<Rejection>, depth': nat)
    modifies stack
    ensures error == if depth < stack.Length then None else Some(ClosureTooLarge)
    ensures error.None? ==> depth' == depth + 1 && stack[..depth'] == old(stack[..])[..depth] + [(m, 0)]
  {
    if depth >= stack.Length { return Some(ClosureTooLarge), depth; }
    stack[depth] := (m, 0);
    return None, depth + 1;
  }

  // ----- one step -----

  /** An import of a module the root reaches has nothing to lead to. */
  ghost predicate Broken(g: Graph, root: nat) {
    exists u: nat, k: nat :: u < |g| && k < |g[u]| && g[u][k].None? && Reaches(g, root, u)
  }

  /** What a walk that stops early leaves behind. */
  ghost predicate Abandoned(r: Registry, stack: array<Frame>, g: Graph, before: seq<Record>, start: seq<Mark>, root: nat, error: Rejection)
    requires root < |before| && root < |start|
    reads r
  {
    && r.count == |g| && |r.records| == |before|
    && r.records[root].status == StatusFor(before[root].status, start[root], Visiting)
    && (error == Unresolved || error == MissingDependency || error == ClosureTooLarge)
    && (error == Unresolved || error == MissingDependency ==> Broken(g, root))
    && (error == ClosureTooLarge ==> stack.Length < |g|)
  }

  lemma NotFinished(g: Graph, start: seq<Mark>, root: nat, w: Walk, m: nat)
    requires Walking(g, start, root, w) && m < |g| && w.marks[m] != Done
    ensures m !in w.finished && start[m] != Done
  {}

  /** The root keeps its status while it is on the stack. */
  lemma RootLinking(before: seq<Record>, after: seq<Record>, g: Graph, start: seq<Mark>, root: nat, w: Walk)
    requires Walking(g, start, root, w) && w.frames != [] && Tracks(before, after, start, w)
    ensures root < |before| == |after| && after[root].status == StatusFor(before[root].status, start[root], Visiting)
  {
    assert w.marks[root] == Visiting;
    assert Follows(before[root], after[root], start[root], w.marks[root]);
  }

  /** The import a frame looks at next. */
  lemma NextImport(r: Registry, g: Graph, m: nat, k: nat)
    requires Laid(r.records, r.count, |r.imports|) && r.Edges() == g && m < r.count && k < |g[m]|
    ensures r.count <= |r.records| && |g[m]| == r.records[m].importCount
    ensures r.records[m].importsAt + k < |r.imports|
    ensures g[m][k] == Target(r.records, r.count, r.imports[r.records[m].importsAt + k])
  {
    assert g[m] == Row(r.records, r.count, r.imports, m);
  }

  lemma RowLength(r: Registry, g: Graph, m: nat)
    requires Laid(r.records, r.count, |r.imports|) && r.Edges() == g && m < r.count
    ensures r.count <= |r.records| && |g[m]| == r.records[m].importCount
  {
    assert g[m] == Row(r.records, r.count, r.imports, m);
  }

  lemma BreaksAt(g: Graph, start: seq<Mark>, root: nat, w: Walk)
    requires Walking(g, start, root, w) && w.frames != []
    requires var (m, k) := w.frames[|w.frames| - 1]; k < |g[m]| && g[m][k].None?
    ensures Broken(g, root) && StuckAt(g, w)
  {
    TopFromRoot(g, start, root, w);
  }

  lemma LooksOnIs(g: Graph, start: seq<Mark>, root: nat, w: Walk, v: nat)
    requires Walking(g, start, root, w) && w.frames != [] && v < |g|
    requires var (m, k) := w.frames[|w.frames| - 1]; k < |g[m]| && g[m][k] == Some(v)
    ensures LooksOn(g, w, v, if w.marks[v] == Unvisited then Entered(Skipped(w), v) else Skipped(w))
  {}

  /** The next import of the module on top leads nowhere. */
  ghost predicate StuckAt(g: Graph, w: Walk) {
    && w.frames != []
    && var (m, k) := w.frames[|w.frames| - 1];
    m < |g| && k < |g[m]| && g[m][k].None?
  }

  /** Look at the next import of the module on top. */
  method Look(r: Registry, stack: array<Frame>, state: array<Mark>, depth: nat,
              ghost g: Graph, ghost before: seq<Record>, ghost start: seq<Mark>, ghost root: nat, ghost w: Walk)
    returns (error: Option<Rejection>, depth': nat, ghost v: nat, ghost w': Walk)
    requires depth > 0 && Underway(r, stack, state, depth, g, before, start, root, w) && Laid(before, |start|, |r.imports|)
    requires stack[depth - 1].0 < r.count && stack[depth - 1].1 < r.records[stack[depth - 1].0].importCount
    requires GraphOf(before, |start|, r.imports) == g
    modifies r`records, stack, state
    ensures error.Some? ==> root < |before| && root < |start| && Abandoned(r, stack, g, before, start, root, error.value)
    ensures error.None? ==> Underway(r, stack, state, depth', g, before, start, root, w')
    ensures error.None? ==> LooksOn(g, w, v, w') && w'.finished == w.finished && w'.frames != []
    ensures error.Some? && error.value != ClosureTooLarge ==> Tracks(before, r.records, start, w) && StuckAt(g, w)
    ensures error.None? ==>
      Unseen(w'.marks) < Unseen(w.marks) || (Unseen(w'.marks) == Unseen(w.marks) && Work(g, w'.frames) < Work(g, w.frames))
  {
    hide Walking, GraphOf, Laid, Tracks, Follows, StatusFor, Unseen, Work, Broken, LooksOn, StuckAt;
    depth', v := depth, 0;
    var (m, cursor) := stack[depth - 1];
    assert w.frames[depth - 1] == (m, cursor);
    WalkingFacts(g, start, root, w);
    RowLength(r, g, m);
    NextImport(r, g, m, cursor);
    RootLinking(before, r.records, g, start, root, w);
    var imported := r.imports[r.records[m].importsAt + cursor];
    stack[depth - 1] := (m, cursor + 1);
    assert stack[..depth] == Skipped(w).frames;
    if imported.resolved.None? {
      BreaksAt(g, start, root, w);
      return Some(Unresolved), depth, 0, w;
    }
    var next := r.Find(imported.resolved.value);
    if next.None? {
      BreaksAt(g, start, root, w);
      return Some(MissingDependency), depth, 0, w;
    }
    var found := next.value;
    v := found;
    LooksOnIs(g, start, root, w, v);
    WorkLess(g, w);
    assert w.marks[v] == state[v];
    if state[found] == Unvisited {
      error, depth', w' := Enter(r, stack, state, depth, found, g, before, start, root, w);
    } else {
      w' := Skipped(w);
      Skips(g, start, root, w);
      SkipsRecord(before, r.records, start, w, w');
      error := None;
    }
  }

  /** Go down into a module not met before. */
  method Enter(r: Registry, stack: array<Frame>, state: array<Mark>, depth: nat, v: nat,
               ghost g: Graph, ghost before: seq<Record>, ghost start: seq<Mark>, ghost root: nat, ghost w: Walk)
    returns (error: Option<Rejection>, depth': nat, ghost w': Walk)
    requires |w.frames| == depth > 0 && r.count == |g| <= state.Length && depth <= stack.Length && w.marks == state[..|g|]
    requires stack[..depth] == Skipped(w).frames && v < |g| && w.marks[v] == Unvisited && Leads(g, w, v)
    requires Laid(r.records, r.count, |r.imports|) && r.Edges() == g && Walking(g, start, root, w) && Tracks(before, r.records, start, w)
    requires Laid(before, |start|, |r.imports|) && GraphOf(before, |start|, r.imports) == g
    modifies r`records, stack, state
    ensures error.Some? ==> error.value == ClosureTooLarge
    ensures error.Some? ==> root < |before| && root < |start| && Abandoned(r, stack, g, before, start, root, error.value)
    ensures error.None? ==> Underway(r, stack, state, depth', g, before, start, root, w') && w' == Entered(Skipped(w), v)
    ensures error.None? ==> Unseen(w'.marks) < Unseen(w.marks)
  {
    hide Walking, GraphOf, Laid, Tracks, Follows, StatusFor, Unseen, Work, Broken;
    WalkingFacts(g, start, root, w);
    RowLength(r, g, v);
    w' := Entered(Skipped(w), v);
    Enters(g, start, root, w, v);
    NotFinished(g, start, root, w, v);
    EntersRecord(before, r.records, start, w, v, w');
    error := MarkVisiting(r, state, v);
    TracksGraph(before, r.records, start, w', r.imports);
    UnseenUpdate(w.marks, v, Visiting);
    RootLinking(before, r.records, g, start, root, w');
    assert state[..|g|] == w'.marks;
    error, depth' := Push(stack, depth, v);
    if error.Some? { TooDeep(g, start, root, w', depth); return; }
    assert stack[..depth'] == w'.frames;
  }

  /** The next import of the module on top leads to `v`. */
  ghost predicate Leads(g: Graph, w: Walk, v: nat) {
    && w.frames != []
    && var (m, k) := w.frames[|w.frames| - 1];
    m < |g| && k < |g[m]| && g[m][k] == Some(v)
  }

  lemma WalkingFacts(g: Graph, start: seq<Mark>, root: nat, w: Walk)
    requires Walking(g, start, root, w)
    ensures root < |g| == |start| == |w.marks| && FramesHold(g, w)
  {}

  lemma TooDeep(g: Graph, start: seq<Mark>, root: nat, w: Walk, depth: nat)
    requires Walking(g, start, root, w) && |w.frames| == depth + 1
    ensures depth < |g|
  {
    FewFrames(g, w);
  }

  lemma EntersRecord(before: seq<Record>, after: seq<Record>, start: seq<Mark>, w: Walk, v: nat, w': Walk)
    requires Tracks(before, after, start, w) && v < |start| && w.marks[v] == Unvisited && v !in w.finished && start[v] != Done
    requires w'.marks == w.marks[v := Visiting] && w'.finished == w.finished
    ensures Tracks(before, after[v := after[v].(status := StatusFor(after[v].status, Unvisited, Visiting))], start, w')
  {
    assert Follows(before[v], after[v], start[v], w.marks[v]);
    TracksMark(before, after, start, w, v, Visiting, after[v].(status := StatusFor(after[v].status, Unvisited, Visiting)), w');
  }

  lemma SkipsRecord(before: seq<Record>, after: seq<Record>, start: seq<Mark>, w: Walk, w': Walk)
    requires Tracks(before, after, start, w) && w'.marks == w.marks && w'.finished == w.finished
    ensures Tracks(before, after, start, w')
  {}

  lemma LeavesRecord(before: seq<Record>, after: seq<Record>, start: seq<Mark>, w: Walk, m: nat, w': Walk)
    requires Tracks(before, after, start, w) && m < |start| && w.marks[m] == Visiting && m !in w.finished && start[m] != Done
    requires w'.marks == w.marks[m := Done] && w'.finished == w.finished + [m]
    ensures Tracks(before, after[m := after[m].(order := |w.finished|,
      status := if after[m].status == Linking then Linked else after[m].status)], start, w')
  {
    assert Follows(before[m], after[m], start[m], w.marks[m]);
    TracksMark(before, after, start, w, m, Done,
               after[m].(order := |w.finished|, status := if after[m].status == Linking then Linked else after[m].status), w');
  }

  /** Leave the module on top: all its imports have been looked at. */
  method Leave(r: Registry, stack: array<Frame>, state: array<Mark>, depth: nat, order: nat,
               ghost g: Graph, ghost before: seq<Record>, ghost start: seq<Mark>, ghost root: nat, ghost w: Walk)
    returns (error: Option<Rejection>, ghost w': Walk)
    requires depth > 0 && Underway(r, stack, state, depth, g, before, start, root, w) && order == |w.finished|
    requires stack[depth - 1].0 < r.count && stack[depth - 1].1 >= r.records[stack[depth - 1].0].importCount
    requires Laid(before, |start|, |r.imports|) && GraphOf(before, |start|, r.imports) == g
    modifies r`records, state
    ensures error.None? && Underway(r, stack, state, depth - 1, g, before, start, root, w')
    ensures w' == Left(w)
    ensures Unseen(w'.marks) == Unseen(w.marks) && Work(g, w'.frames) < Work(g, w.frames)
  {
    hide Walking, GraphOf, Laid, Tracks, Follows, StatusFor, Unseen, Work;
    var m := stack[depth - 1].0;
    WalkingFacts(g, start, root, w);
    RowLength(r, g, m);
    w' := Left(w);
    Leaves(g, start, root, w);
    WorkLess(g, w);
    NotFinished(g, start, root, w, m);
    LeavesRecord(before, r.records, start, w, m, w');
    UnseenUpdate(w.marks, m, Done);
    error := MarkDone(r, state, m, order);
    TracksGraph(before, r.records, start, w', r.imports);
    assert state[..|g|] == w'.marks && stack[..depth - 1] == w'.frames;
  }

  // ----- a walk -----

  /** `b` begins with `a`. */
  ghost predicate Extends(a: seq<nat>, b: seq<nat>) { |a| <= |b| && b[..|a|] == a }

  /** A completed walk: everything the root reaches is done, the root last. */
  ghost predicate Completed(g: Graph, start: seq<Mark>, root: nat, earlier: seq<nat>, w: Walk) {
    && Walking(g, start, root, w) && w.frames == [] && w.marks[root] == Done
    && Extends(earlier, w.finished) && w.finished != [] && w.finished[|w.finished| - 1] == root
  }

  /** Either there is more to do, or the root has just been finished. */
  ghost predicate Progressing(root: nat, earlier: seq<nat>, w: Walk) {
    && Extends(earlier, w.finished)
    && (w.frames == [] ==> root < |w.marks| && w.marks[root] == Done && w.finished != [] && w.finished[|w.finished| - 1] == root)
  }

  lemma LeavesProgress(g: Graph, start: seq<Mark>, root: nat, earlier: seq<nat>, w: Walk)
    requires Walking(g, start, root, w) && w.frames != [] && Progressing(root, earlier, w)
    ensures Progressing(root, earlier, Left(w))
  {}

  /** A walk stopped by an import that leads nowhere. */
  ghost predicate Stranded(g: Graph, before: seq<Record>, after: seq<Record>, start: seq<Mark>, root: nat, earlier: seq<nat>, w: Walk) {
    && Walking(g, start, root, w) && Tracks(before, after, start, w)
    && (earlier == [] && AllUnvisited(start) ==> (w.finished == [] <==> BreaksFirst(g, root)))
  }

  lemma StrandedHere(g: Graph, before: seq<Record>, after: seq<Record>, start: seq<Mark>, root: nat, earlier: seq<nat>, w: Walk)
    requires Walking(g, start, root, w) && Tracks(before, after, start, w) && StuckAt(g, w)
    requires Descended(g, start, root, earlier, w)
    ensures Stranded(g, before, after, start, root, earlier, w)
  {
    hide Walking, Tracks, Descended, BreaksFirst;
    DescentBreaks(g, start, root, earlier, w);
  }

  /** Put what the root reaches and no earlier walk has reached into finishing order. */
  method WalkFrom(r: Registry, root: nat, stack: array<Frame>, state: array<Mark>, order: nat, ghost g: Graph, ghost earlier: seq<nat>)
    returns (error: Option<Rejection>, order': nat, ghost w: Walk)
    requires Laid(r.records, r.count, |r.imports|) && r.Edges() == g && root < r.count <= state.Length
    requires Settled(g, state[..r.count], earlier) && state[root] == Unvisited && order == |earlier|
    modifies r`records, stack, state
    ensures error.None? ==> Completed(g, old(state[..r.count]), root, earlier, w) && w.marks == state[..r.count]
    ensures error.None? ==> Tracks(old(r.records), r.records, old(state[..r.count]), w) && order' == |w.finished|
    ensures error.Some? ==>
      || (Abandoned(r, stack, g, old(r.records), old(state[..r.count]), root, error.value)
          && (error.value == ClosureTooLarge || Stranded(g, old(r.records), r.records, old(state[..r.count]), root, earlier, w)))
      || (stack.Length == 0 && r.records == old(r.records) && error == Some(ClosureTooLarge))
  {
    hide Walking, GraphOf, Laid, Tracks, Follows, StatusFor, Unseen, Work, Settled, Progressing, LooksOn, OnWay, BreaksFirst,
         Stranded, StuckAt, Abandoned, Completed, Extends,
         AllUnvisited;
    ghost var before, start := r.records, state[..r.count];
    order' := order;
    BeginsTracking(r, g, start, earlier, root);
    w := Entered(Walk(start, [], earlier), root);
    var depth: nat;
    error, depth := Push(stack, 0, root);
    if error.Some? { return; }
    error := MarkVisiting(r, state, root);
    TracksGraph(before, r.records, start, w, r.imports);
    assert state[..r.count] == w.marks && stack[..depth] == w.frames;
    DescentStarts(g, start, root, earlier);
    while depth > 0
      invariant Underway(r, stack, state, depth, g, before, start, root, w) && Descended(g, start, root, earlier, w)
      invariant Progressing(root, earlier, w) && order' == |w.finished|
      decreases Unseen(w.marks), Work(g, w.frames)
    {
      WalkingFacts(g, start, root, w);
      var (m, cursor) := stack[depth - 1];
      assert w.frames[depth - 1] == (m, cursor);
      RowLength(r, g, m);
      if cursor < r.records[m].importCount {
        ghost var was, v := w, 0;
        error, depth, v, w := Look(r, stack, state, depth, g, before, start, root, w);
        if error.Some? {
          w := was;
          if error.value != ClosureTooLarge { StrandedHere(g, before, r.records, start, root, earlier, w); }
          return;
        }
        LookProgress(root, earlier, was, w);
        DescentLooks(g, start, root, earlier, was, v, w);
      } else {
        LeavesProgress(g, start, root, earlier, w);
        DescentLeaves(g, start, root, earlier, w);
        error, w := Leave(r, stack, state, depth, order', g, before, start, root, w);
        depth := depth - 1;
        order' := order' + 1;
      }
    }
    CompletedIs(g, start, root, earlier, w);
    error := None;
  }

  lemma LookProgress(root: nat, earlier: seq<nat>, w: Walk, w': Walk)
    requires Progressing(root, earlier, w) && w'.finished == w.finished && w'.frames != []
    ensures Progressing(root, earlier, w')
  {}

  lemma CompletedIs(g: Graph, start: seq<Mark>, root: nat, earlier: seq<nat>, w: Walk)
    requires Walking(g, start, root, w) && w.frames == [] && Progressing(root, earlier, w)
    ensures Completed(g, start, root, earlier, w)
  {}

  lemma BeginsTracking(r: Registry, g: Graph, start: seq<Mark>, earlier: seq<nat>, root: nat)
    requires Settled(g, start, earlier) && root < |g| && start[root] == Unvisited && |g| == r.count
    requires Laid(r.records, r.count, |r.imports|)
    ensures var w := Entered(Walk(start, [], earlier), root);
            && root < |r.records| && |start| == |g|
            && Walking(g, start, root, w) && Progressing(root, earlier, w)
            && Tracks(r.records, r.records[root := r.records[root].(status := StatusFor(r.records[root].status, Unvisited, Visiting))], start, w)
  {
    Starts(g, start, earlier, root);
    assert Tracks(r.records, r.records, start, Walk(start, [], earlier));
    EntersRecord(r.records, r.records, start, Walk(start, [], earlier), root, Entered(Walk(start, [], earlier), root));
  }

  // ----- linking -----

  datatype Closure = Closure(count: nat, entryOrder: nat)

  /** The modules the entry reaches, each once, in an order that puts an import before its
      importer unless they import each other, and the entry last. */
  ghost predicate FinishingOrder(g: Graph, entry: nat, finished: seq<nat>) {
    && (forall m: nat :: m in finished <==> m < |g| && Reaches(g, entry, m))
    && (forall p, q :: 0 <= p < q < |finished| ==> finished[p] != finished[q])
    && Ordered(g, finished)
    && finished != [] && finished[|finished| - 1] == entry
  }

  /** Positions are those of `finished`; other modules keep theirs. */
  ghost predicate Positions(before: seq<Record>, after: seq<Record>, finished: seq<nat>) {
    && |before| == |after|
    && (forall p :: 0 <= p < |finished| ==> 0 <= finished[p] < |after| && after[finished[p]].order == p)
    && (forall m :: 0 <= m < |after| && m !in finished ==> after[m] == before[m])
  }

  predicate Fresh(records: seq<Record>, count: nat) {
    count <= |records| && forall m :: 0 <= m < count ==> records[m].status == New && records[m].order == NO_ORDER
  }

  /** What `IsLinked` answers. */
  predicate AllLinked(records: seq<Record>, count: nat)
    requires count <= |records|
  {
    && (forall m :: 0 <= m < count ==> !records[m].status.Linking? && !records[m].status.Failed?)
    && (forall m :: 0 <= m < count && records[m].order != NO_ORDER ==> records[m].status.Linked? || records[m].status.Evaluated?)
    && (exists m :: 0 <= m < count && records[m].order != NO_ORDER)
  }

  method IsLinked(r: Registry) returns (linked: bool)
    requires r.count <= |r.records|
    ensures linked == AllLinked(r.records, r.count)
  {
    linked := false;
    var index := 0;
    while index < r.count
      invariant 0 <= index <= r.count
      invariant forall m :: 0 <= m < index ==> !r.records[m].status.Linking? && !r.records[m].status.Failed?
      invariant forall m :: 0 <= m < index && r.records[m].order != NO_ORDER ==>
                  r.records[m].status.Linked? || r.records[m].status.Evaluated?
      invariant linked == exists m :: 0 <= m < index && r.records[m].order != NO_ORDER
    {
      var record := r.records[index];
      if record.status.Linking? || record.status.Failed? { return false; }
      if record.order != NO_ORDER {
        if !(record.status.Linked? || record.status.Evaluated?) { return false; }
        linked := true;
      }
      index := index + 1;
    }
  }

  /** One mark per module, all unvisited. */
  method Reset(state: array<Mark>, total: nat) returns (ok: bool)
    modifies state
    ensures ok == (total <= state.Length)
    ensures ok ==> forall i :: 0 <= i < total ==> state[i] == Unvisited
  {
    if total > state.Length { return false; }
    var index := 0;
    while index < total
      invariant 0 <= index <= total && forall i :: 0 <= i < index ==> state[i] == Unvisited
    {
      state[index] := Unvisited;
      index := index + 1;
    }
    ok := true;
  }

  lemma NothingSettled(g: Graph, marks: seq<Mark>)
    requires |marks| == |g| && forall i :: 0 <= i < |marks| ==> marks[i] == Unvisited
    ensures Settled(g, marks, [])
  {}

  /** A walk from nothing finishes exactly what its root reaches. */
  lemma WalkOrders(g: Graph, start: seq<Mark>, root: nat, w: Walk, before: seq<Record>, after: seq<Record>)
    requires Completed(g, start, root, [], w) && Tracks(before, after, start, w)
    requires forall i :: 0 <= i < |start| ==> start[i] == Unvisited
    ensures FinishingOrder(g, root, w.finished) && Positions(before, after, w.finished) && !Broken(g, root)
  {
    Ends(g, start, root, w);
    hide Reaches;
    forall m: nat ensures m in w.finished <==> m < |g| && Reaches(g, root, m) {}
    forall m | 0 <= m < |after| && m !in w.finished ensures after[m] == before[m] {
      if m < |start| { UnmarkedSame(g, start, root, w, before, after, m); }
    }
    NotBroken(g, start, root, w);
  }

  lemma UnmarkedSame(g: Graph, start: seq<Mark>, root: nat, w: Walk, before: seq<Record>, after: seq<Record>, m: nat)
    requires Completed(g, start, root, [], w) && Tracks(before, after, start, w) && m < |start| && m !in w.finished
    ensures after[m] == before[m]
  {
    hide Reaches;
    assert Follows(before[m], after[m], start[m], w.marks[m]);
    if w.marks[m] == Visiting { KnownMarks(g, start, root, w, m); }
  }

  lemma NotBroken(g: Graph, start: seq<Mark>, root: nat, w: Walk)
    requires Completed(g, start, root, [], w)
    ensures !Broken(g, root)
  {
    Ends(g, start, root, w);
    hide Reaches;
    forall u: nat, k: nat | u < |g| && k < |g[u]| && Reaches(g, root, u) ensures g[u][k].Some? {
      assert Met(g, w.marks, u, k);
    }
  }

  /** What a fresh registry looks like after its entry is linked. */
  lemma LinkedRecords(g: Graph, start: seq<Mark>, root: nat, w: Walk, before: seq<Record>, after: seq<Record>)
    requires Completed(g, start, root, [], w) && Tracks(before, after, start, w) && Fresh(before, |start|)
    requires forall i :: 0 <= i < |start| ==> start[i] == Unvisited
    requires |w.finished| < NO_ORDER
    ensures |start| <= |after| && AllLinked(after, |start|)
  {
    hide Reaches;
    forall m: nat | m < |start|
      ensures after[m].status == (if m in w.finished then Linked else New)
    {
      assert Follows(before[m], after[m], start[m], w.marks[m]);
      if w.marks[m] == Visiting { KnownMarks(g, start, root, w, m); }
    }
    assert after[root].order == |w.finished| - 1;
    forall m: nat | m < |start| && after[m].order != NO_ORDER ensures m in w.finished {
      if m !in w.finished { UnmarkedSame(g, start, root, w, before, after, m); }
    }
  }

  predicate NoneLinked(records: seq<Record>, count: nat) {
    forall m :: 0 <= m < count && m < |records| ==> !records[m].status.Linked?
  }

  /** A walk that is stranded leaves linked exactly what it finished. */
  lemma StrandedLinked(g: Graph, before: seq<Record>, after: seq<Record>, start: seq<Mark>, root: nat, w: Walk)
    requires Stranded(g, before, after, start, root, [], w) && AllUnvisited(start) && Fresh(before, |start|)
    ensures |start| == |g| && (NoneLinked(after, |start|) <==> BreaksFirst(g, root))
  {
    hide Ordered, LookedAt, FromRoot, FramesChain, FramesCover, BreaksFirst;
    forall m: nat | m < |start| ensures after[m].status.Linked? <==> m in w.finished {
      assert Follows(before[m], after[m], start[m], w.marks[m]);
    }
    if w.finished != [] { assert w.finished[0] in w.finished; }
  }

  /** Link what the entry reaches, and nothing else. */
  method Link(r: Registry, entry: nat, stack: array<Frame>, state: array<Mark>)
    returns (result: Result<Closure, Rejection>, ghost finished: seq<nat>)
    requires r.Valid()
    modifies r`records, stack, state
    ensures result.Ok? ==> entry < r.count && FinishingOrder(old(r.Edges()), entry, finished)
    ensures result.Ok? ==> Positions(old(r.records), r.records, finished)
    ensures result.Ok? ==> result.value == Closure(|finished|, |finished| - 1) && !Broken(old(r.Edges()), entry)
    ensures entry < r.count <= state.Length && r.count <= stack.Length ==> (result.Ok? <==> !Broken(old(r.Edges()), entry))
    ensures old(Fresh(r.records, r.count)) && r.count <= |r.records| ==> (result.Ok? <==> AllLinked(r.records, r.count))
    ensures |r.records| == |old(r.records)|
    ensures old(Fresh(r.records, r.count)) && (result == Err(Unresolved) || result == Err(MissingDependency)) ==>
      (NoneLinked(r.records, r.count) <==> BreaksFirst(old(r.Edges()), entry))
  {
    hide GraphOf, Laid, Tracks, Follows, Settled, Completed, FinishingOrder, Positions, Broken, Ordered, BreaksFirst, NoneLinked, Walking;
    LaidFacts(r);
    ghost var g, before := r.Edges(), r.records;
    finished := [];
    if entry >= r.count {
      FreshUnlinked(r.records, r.count);
      return Err(WrongState), [];
    }
    var ok := Reset(state, r.count);
    if !ok {
      FreshUnlinked(r.records, r.count);
      return Err(RegistryFull), [];
    }
    ghost var start := state[..r.count];
    NothingSettled(g, start);
    var error, order;
    ghost var w;
    error, order, w := WalkFrom(r, entry, stack, state, 0, g, []);
    if error.Some? {
      AbandonedUnlinked(r, stack, g, before, start, entry, error.value);
      if error.value != ClosureTooLarge && Fresh(before, r.count) { StrandedLinked(g, before, r.records, start, entry, w); }
      return Err(error.value), [];
    }
    WalkOrders(g, start, entry, w, before, r.records);
    CompletedFacts(g, start, entry, w, before, r.records);
    if Fresh(before, r.count) { LinkedRecords(g, start, entry, w, before, r.records); }
    finished := w.finished;
    result := Ok(Closure(order, r.records[entry].order));
  }

  lemma LaidFacts(r: Registry)
    requires r.Valid()
    ensures r.count <= MAX_CLOSURE && r.count <= |r.records| && Laid(r.records, r.count, |r.imports|)
  {}

  lemma FreshUnlinked(records: seq<Record>, count: nat)
    ensures Fresh(records, count) ==> !AllLinked(records, count)
  {}

  lemma AbandonedUnlinked(r: Registry, stack: array<Frame>, g: Graph, before: seq<Record>, start: seq<Mark>, root: nat, error: Rejection)
    requires root < r.count == |g| == |start| && r.count <= |before| && start[root] == Unvisited
    requires Abandoned(r, stack, g, before, start, root, error) || (stack.Length == 0 && r.records == before && error == ClosureTooLarge)
    ensures |r.records| == |before|
    ensures Fresh(before, r.count) ==> !AllLinked(r.records, r.count)
    ensures r.count <= stack.Length ==> Broken(g, root)
  {}

  lemma CompletedFacts(g: Graph, start: seq<Mark>, root: nat, w: Walk, before: seq<Record>, after: seq<Record>)
    requires Completed(g, start, root, [], w) && Tracks(before, after, start, w) && |g| <= MAX_CLOSURE
    requires forall i :: 0 <= i < |start| ==> start[i] == Unvisited
    ensures |after| == |before| && root < |after| && after[root].order == |w.finished| - 1
    ensures |w.finished| < NO_ORDER
  {
    hide Reaches;
    FinishedFew(g, w);
  }

  /** No module is finished twice. */
  lemma FinishedFew(g: Graph, w: Walk)
    requires |w.marks| == |g| && FinishedAre(g, w)
    ensures |w.finished| <= |g|
  {
    var frames := seq(|w.finished|, i requires 0 <= i < |w.finished| => (w.finished[i], 0));
    FrameSetSize(frames, |frames|);
    NamesAre(|g|);
    var s := FrameSet(frames, |frames|);
    forall m | m in s ensures m in Names(|g|) {
      var i := FromFrame(frames, |frames|, m);
    }
    SmallerSet(s, Names(|g|));
  }

  // ----- linking everything -----

  /** Walks from the first `roots` modules have finished `finished`, each in its place. */
  ghost predicate LinkedSoFar(g: Graph, records: seq<Record>, marks: seq<Mark>, finished: seq<nat>, roots: nat) {
    && |g| <= |records| && Settled(g, marks, finished)
    && (forall p :: 0 <= p < |finished| ==> finished[p] < |records| && records[finished[p]].order == p)
    && (forall m :: 0 <= m < roots && m < |g| ==> marks[m] == Done)
    && (forall m: nat :: m < |g| && marks[m] == Done ==> exists u: nat :: u < roots && Reaches(g, u, m))
  }

  lemma NextRoot(g: Graph, start: seq<Mark>, root: nat, earlier: seq<nat>, w: Walk, before: seq<Record>, after: seq<Record>)
    requires LinkedSoFar(g, before, start, earlier, root) && root < |g| && Completed(g, start, root, earlier, w)
    requires Tracks(before, after, start, w)
    ensures LinkedSoFar(g, after, w.marks, w.finished, root + 1)
  {
    Ends(g, start, root, w);
    NextPositions(g, start, root, earlier, w, before, after);
    hide Reaches, Ordered, LookedAt, Tracks, FinishedAre, Walking, Settled;
    forall m: nat | m < |g| && w.marks[m] == Done ensures exists u: nat :: u < root + 1 && Reaches(g, u, m) {
      if start[m] == Done {
        var u: nat :| u < root && Reaches(g, u, m);
        assert u < root + 1 && Reaches(g, u, m);
      }
    }
    StillDone(g, start, root, w);
  }

  lemma StillDone(g: Graph, start: seq<Mark>, root: nat, w: Walk)
    requires Walking(g, start, root, w)
    ensures |start| == |g| == |w.marks| && forall m :: 0 <= m < |g| && start[m] == Done ==> w.marks[m] == Done
  {}

  lemma NextPositions(g: Graph, start: seq<Mark>, root: nat, earlier: seq<nat>, w: Walk, before: seq<Record>, after: seq<Record>)
    requires LinkedSoFar(g, before, start, earlier, root) && Completed(g, start, root, earlier, w) && Tracks(before, after, start, w)
    ensures |g| <= |after|
    ensures forall p :: 0 <= p < |w.finished| ==> w.finished[p] < |after| && after[w.finished[p]].order == p
  {
    hide Reaches, Ordered, LookedAt, FramesCover, FramesChain;
    forall p | 0 <= p < |w.finished| ensures after[w.finished[p]].order == p {
      var m := w.finished[p];
      if start[m] == Done {
        assert m in earlier;
        var q :| 0 <= q < |earlier| && earlier[q] == m;
        assert w.finished[q] == m;
        assert Follows(before[m], after[m], start[m], w.marks[m]);
      }
    }
  }

  lemma SameRoot(g: Graph, records: seq<Record>, marks: seq<Mark>, finished: seq<nat>, root: nat)
    requires LinkedSoFar(g, records, marks, finished, root) && root < |g| && marks[root] == Done
    ensures LinkedSoFar(g, records, marks, finished, root + 1)
  {
    hide Reaches;
    forall m: nat | m < |g| && marks[m] == Done ensures exists u: nat :: u < root + 1 && Reaches(g, u, m) {
      var u: nat :| u < root && Reaches(g, u, m);
      assert u < root + 1 && Reaches(g, u, m);
    }
  }

  ghost predicate ImportedByNone(g: Graph, v: nat) { forall u: nat :: Edge(g, u, v) ==> u == v }

  /** A module no other imports is reached from no other. */
  lemma {:induction false} Unimported(g: Graph, v: nat, p: seq<nat>)
    requires Path(g, p) && p[|p| - 1] == v && ImportedByNone(g, v)
    ensures p[0] == v
    decreases |p|
  {
    if |p| > 1 {
      var q := p[..|p| - 1];
      assert Edge(g, p[|p| - 2], p[|p| - 1]);
      forall i | 0 <= i < |q| - 1 ensures Edge(g, q[i], q[i + 1]) { assert Edge(g, p[i], p[i + 1]); }
      Unimported(g, v, q);
    }
  }

  /** The last module is still unvisited when its turn comes, if no other imports it. */
  lemma LastUnvisited(g: Graph, records: seq<Record>, marks: seq<Mark>, finished: seq<nat>)
    requires |g| > 0 && LinkedSoFar(g, records, marks, finished, |g| - 1) && ImportedByNone(g, |g| - 1)
    ensures marks[|g| - 1] == Unvisited
  {
    if marks[|g| - 1] == Done {
      var u: nat :| u < |g| - 1 && Reaches(g, u, |g| - 1);
      var p :| Joins(g, u, |g| - 1, p);
      Unimported(g, |g| - 1, p);
    }
  }

  /** Every import of every module leads to a module. */
  predicate AllLead(g: Graph) { forall u, k :: 0 <= u < |g| && 0 <= k < |g[u]| ==> g[u][k].Some? }

  lemma BrokenSomewhere(r: Registry, stack: array<Frame>, g: Graph, before: seq<Record>, start: seq<Mark>, root: nat, error: Rejection)
    requires root < |before| && root < |start| && |g| <= stack.Length && |g| > 0
    requires Abandoned(r, stack, g, before, start, root, error) || stack.Length == 0
    ensures !AllLead(g)
  {
    hide Reaches;
  }

  /** One order for all modules: each is walked from in turn, as registered, unless it is done. */
  method LinkAll(r: Registry, stack: array<Frame>, state: array<Mark>)
    returns (result: Result<Closure, Rejection>, ghost finished: seq<nat>)
    requires r.Valid()
    modifies r`records, stack, state
    ensures r.count == 0 ==> result == Err(WrongState)
    ensures 0 < r.count <= state.Length && r.count <= stack.Length ==> (result.Ok? <==> AllLead(old(r.Edges())))
    ensures result.Ok? ==> finished != [] && result.value == Closure(|finished|, |finished| - 1)
    ensures result.Ok? ==> |r.records| == |old(r.records)| && EveryModule(old(r.Edges()), finished) && Ordered(old(r.Edges()), finished)
    ensures result.Ok? ==> forall p :: 0 <= p < |finished| ==> 0 <= finished[p] < |r.records| && r.records[finished[p]].order == p
    ensures result.Ok? && ImportedByNone(old(r.Edges()), r.count - 1) ==>
      finished[|finished| - 1] == r.count - 1
  {
    hide GraphOf, Laid, Tracks, Follows, Settled, Completed, LinkedSoFar, Ordered, EveryModule, ImportedByNone,
         Abandoned, Stranded, AllLead;
    finished := [];
    LaidFacts(r);
    ghost var g := r.Edges();
    var total := r.count;
    if total == 0 { return Err(WrongState), []; }
    var ok := Reset(state, total);
    if !ok { return Err(RegistryFull), []; }
    StartsLinked(g, r.records, state[..total]);
    var order, root := 0, 0;
    while root < total
      invariant 0 <= root <= total == r.count && order == |finished| && |r.records| == |old(r.records)|
      invariant Laid(r.records, r.count, |r.imports|) && r.Edges() == g && total <= state.Length
      invariant LinkedSoFar(g, r.records, state[..total], finished, root)
      invariant root == total && ImportedByNone(g, total - 1) ==>
                  finished != [] && finished[|finished| - 1] == total - 1
    {
      LinkedFacts(g, r.records, state[..total], finished, root);
      if root == total - 1 && ImportedByNone(g, total - 1) {
        LastUnvisited(g, r.records, state[..total], finished);
      }
      if state[root] == Unvisited {
        ghost var before, start, w := r.records, state[..total], Walk([], [], []);
        var error;
        error, order, w := WalkFrom(r, root, stack, state, order, g, finished);
        if error.Some? {
          if total <= stack.Length { BrokenSomewhere(r, stack, g, before, start, root, error.value); }
          return Err(error.value), [];
        }
        TracksGraph(before, r.records, start, w, r.imports);
        NextRoot(g, start, root, finished, w, before, r.records);
        CompletedLast(g, start, root, finished, w, before, r.records);
        finished := w.finished;
      } else {
        SameRoot(g, r.records, state[..total], finished, root);
      }
      root := root + 1;
    }
    LinkedEverything(g, r.records, state[..total], finished);
    result := Ok(Closure(order, if order > 0 then order - 1 else 0));
  }

  ghost predicate EveryModule(g: Graph, finished: seq<nat>) {
    && |finished| == |g|
    && (forall m: nat :: m in finished <==> m < |g|)
    && (forall p, q :: 0 <= p < q < |finished| ==> finished[p] != finished[q])
  }

  lemma StartsLinked(g: Graph, records: seq<Record>, marks: seq<Mark>)
    requires |g| == |marks| <= |records| && forall i :: 0 <= i < |marks| ==> marks[i] == Unvisited
    ensures LinkedSoFar(g, records, marks, [], 0)
  {
    NothingSettled(g, marks);
  }

  lemma LinkedFacts(g: Graph, records: seq<Record>, marks: seq<Mark>, finished: seq<nat>, roots: nat)
    requires LinkedSoFar(g, records, marks, finished, roots)
    ensures Settled(g, marks, finished) && |marks| == |g|
    ensures forall m :: 0 <= m < |g| ==> marks[m] == Unvisited || marks[m] == Done
  {}

  lemma CompletedLast(g: Graph, start: seq<Mark>, root: nat, earlier: seq<nat>, w: Walk, before: seq<Record>, after: seq<Record>)
    requires Completed(g, start, root, earlier, w) && Tracks(before, after, start, w)
    ensures |after| == |before| && w.finished != [] && w.finished[|w.finished| - 1] == root
  {}

  lemma LinkedEverything(g: Graph, records: seq<Record>, marks: seq<Mark>, finished: seq<nat>)
    requires LinkedSoFar(g, records, marks, finished, |g|) && |g| > 0
    ensures EveryModule(g, finished) && Ordered(g, finished) && finished != [] && AllLead(g)
    ensures forall p :: 0 <= p < |finished| ==> 0 <= finished[p] < |records| && records[finished[p]].order == p
  {
    hide Reaches, Ordered;
    var w := Walk(marks, [], finished);
    FinishedFew(g, w);
    forall m: nat ensures m in finished <==> m < |g| {}
    ManyFinished(g, finished);
    forall u, k | 0 <= u < |g| && 0 <= k < |g[u]| ensures g[u][k].Some? { assert Met(g, marks, u, k); }
  }

  /** A list with every module in it is as long as there are modules. */
  lemma ManyFinished(g: Graph, finished: seq<nat>)
    requires forall m: nat :: m < |g| ==> m in finished
    ensures |finished| >= |g|
  {
    var frames := seq(|finished|, i requires 0 <= i < |finished| => (finished[i], 0));
    var s := FrameSet(frames, |frames|);
    NamesAre(|g|);
    hide FrameSet, Names;
    forall m | m in Names(|g|) ensures m in s {
      assert m in finished;
      var i :| 0 <= i < |finished| && finished[i] == m;
      InFrameSet(frames, |frames|, i);
    }
    SmallerSet(Names(|g|), s);
    FrameSetFew(frames, |frames|);
  }

  lemma {:induction false} InFrameSet(frames: seq<Frame>, n: nat, i: nat)
    requires i < n <= |frames|
    ensures frames[i].0 in FrameSet(frames, n)
  {
    if i < n - 1 { InFrameSet(frames, n - 1, i); }
  }

  lemma {:induction false} FrameSetFew(frames: seq<Frame>, n: nat)
    requires n <= |frames|
    ensures |FrameSet(frames, n)| <= n
  {
    if n > 0 { FrameSetFew(frames, n - 1); }
  }
}
