/** Import graphs, and what a depth-first walk over one keeps. */
module ImportGraphs {
  import opened Words

  /** For each module, what each of its imports resolved to. */
  type Graph = seq<seq<Option<nat>>>

  predicate Edge(g: Graph, u: nat, v: nat) {
    u < |g| && v < |g| && Some(v) in g[u]
  }

  predicate Path(g: Graph, p: seq<nat>) {
    && p != []
    && (forall i :: 0 <= i < |p| ==> p[i] < |g|)
    && forall i :: 0 <= i < |p| - 1 ==> Edge(g, p[i], p[i + 1])
  }

  ghost predicate Joins(g: Graph, u: nat, v: nat, p: seq<nat>) {
    Path(g, p) && p[0] == u && p[|p| - 1] == v
  }

  /** `v` is imported by `u`, however indirectly, or is `u`. */
  ghost predicate Reaches(g: Graph, u: nat, v: nat) { exists p :: Joins(g, u, v, p) }

  lemma ReachesItself(g: Graph, u: nat)
    requires u < |g|
    ensures Reaches(g, u, u)
  {
    assert Joins(g, u, u, [u]);
  }

  lemma ReachesOn(g: Graph, u: nat, v: nat, w: nat)
    requires Reaches(g, u, v) && Edge(g, v, w)
    ensures Reaches(g, u, w)
  {
    var p :| Joins(g, u, v, p);
    var q := p + [w];
    forall i | 0 <= i < |q| - 1 ensures Edge(g, q[i], q[i + 1]) {
      if i < |p| - 1 { assert Edge(g, p[i], p[i + 1]); }
    }
    assert Joins(g, u, w, q);
  }

  /** What contains a module and all its imports, again and again, contains what it reaches. */
  lemma {:induction false} ClosedContains(g: Graph, inside: seq<bool>, p: seq<nat>)
    requires |inside| == |g| && Path(g, p) && inside[p[0]]
    requires forall u: nat, v: nat :: Edge(g, u, v) && inside[u] ==> inside[v]
    ensures inside[p[|p| - 1]]
    decreases |p|
  {
    if |p| > 1 {
      assert Edge(g, p[0], p[1]);
      var q := p[1..];
      forall i | 0 <= i < |q| - 1 ensures Edge(g, q[i], q[i + 1]) { assert Edge(g, p[i + 1], p[i + 2]); }
      ClosedContains(g, inside, q);
    }
  }

  // ----- walking -----

  datatype Mark = Unvisited | Visiting | Done

  /** A module on the stack, and how many of its imports have been looked at. */
  type Frame = (nat, nat)

  /** A walk in progress: marks, frames, and the modules finished, in order. */
  datatype Walk = Walk(marks: seq<Mark>, frames: seq<Frame>, finished: seq<nat>)

  /** Import `k` of `u` leads to a module the walk has met. */
  predicate Met(g: Graph, marks: seq<Mark>, u: nat, k: nat)
    requires u < |g| == |marks| && k < |g[u]|
  {
    g[u][k].Some? && g[u][k].value < |g| && marks[g[u][k].value] != Unvisited
  }

  ghost predicate FramesHold(g: Graph, w: Walk) {
    && |w.marks| == |g|
    && (forall i :: 0 <= i < |w.frames| ==>
          w.frames[i].0 < |g| && w.frames[i].1 <= |g[w.frames[i].0]| && w.marks[w.frames[i].0] == Visiting)
    && (forall i, j :: 0 <= i < j < |w.frames| ==> w.frames[i].0 != w.frames[j].0)
  }

  /** The frames are the modules being visited. */
  ghost predicate FramesCover(g: Graph, w: Walk)
    requires |w.marks| == |g|
  {
    forall m :: 0 <= m < |g| && w.marks[m] == Visiting ==> OnStack(w.frames, m)
  }

  ghost predicate OnStack(frames: seq<Frame>, m: nat) { exists i :: 0 <= i < |frames| && frames[i].0 == m }

  /** Each frame was entered through the import its predecessor looked at last. */
  ghost predicate FramesChain(g: Graph, w: Walk)
    requires FramesHold(g, w)
  {
    forall i :: 0 <= i < |w.frames| - 1 ==> Edge(g, w.frames[i].0, w.frames[i + 1].0)
  }

  /** Everything looked at has been met. */
  ghost predicate LookedAt(g: Graph, w: Walk)
    requires FramesHold(g, w)
  {
    && (forall u, k :: 0 <= u < |g| && w.marks[u] == Done && 0 <= k < |g[u]| ==> Met(g, w.marks, u, k))
    && (forall i, k :: 0 <= i < |w.frames| && 0 <= k < w.frames[i].1 ==> Met(g, w.marks, w.frames[i].0, k))
  }

  /** The finished modules are those done, each once. */
  ghost predicate FinishedAre(g: Graph, w: Walk)
    requires |w.marks| == |g|
  {
    && (forall p :: 0 <= p < |w.finished| ==> w.finished[p] < |g| && w.marks[w.finished[p]] == Done)
    && (forall p, q :: 0 <= p < q < |w.finished| ==> w.finished[p] != w.finished[q])
    && (forall m :: 0 <= m < |g| && w.marks[m] == Done ==> m in w.finished)
  }

  /** `v` was finished before position `p`. */
  predicate Earlier(finished: seq<nat>, v: nat, p: nat) { p <= |finished| && v in finished[..p] }

  /** An import was finished first, or leads back to its importer. */
  ghost predicate Ordered(g: Graph, finished: seq<nat>) {
    forall p: nat, v: nat :: p < |finished| && Edge(g, finished[p], v) ==> Earlier(finished, v, p) || Reaches(g, v, finished[p])
  }

  /** Everything met was done before, or is reached from the root. */
  ghost predicate FromRoot(g: Graph, start: seq<Mark>, root: nat, w: Walk)
    requires |w.marks| == |g| == |start|
  {
    && (forall m :: 0 <= m < |g| && start[m] == Done ==> w.marks[m] == Done)
    && (forall m :: 0 <= m < |g| && w.marks[m] != Unvisited ==> start[m] == Done || Reaches(g, root, m))
  }

  ghost predicate Walking(g: Graph, start: seq<Mark>, root: nat, w: Walk) {
    && root < |g| && |start| == |g|
    && FramesHold(g, w) && FramesCover(g, w) && FramesChain(g, w) && LookedAt(g, w)
    && FinishedAre(g, w) && Ordered(g, w.finished) && FromRoot(g, start, root, w)
    && (w.frames != [] ==> w.frames[0].0 == root)
  }

  /** Between walks: nothing half visited. */
  ghost predicate Settled(g: Graph, marks: seq<Mark>, finished: seq<nat>) {
    var w := Walk(marks, [], finished);
    && |marks| == |g| && (forall m :: 0 <= m < |g| ==> marks[m] == Unvisited || marks[m] == Done)
    && FramesHold(g, w) && LookedAt(g, w) && FinishedAre(g, w) && Ordered(g, finished)
  }

  // ----- steps -----

  function Entered(w: Walk, m: nat): Walk
    requires m < |w.marks|
  {
    Walk(w.marks[m := Visiting], w.frames + [(m, 0)], w.finished)
  }

  lemma Starts(g: Graph, marks: seq<Mark>, finished: seq<nat>, root: nat)
    requires Settled(g, marks, finished) && root < |g| && marks[root] == Unvisited
    ensures Walking(g, marks, root, Entered(Walk(marks, [], finished), root))
  {
    ReachesItself(g, root);
    var w := Entered(Walk(marks, [], finished), root);
    assert w.frames[0].0 == root;
    hide Reaches;
    forall u, k | 0 <= u < |g| && w.marks[u] == Done && 0 <= k < |g[u]| ensures Met(g, w.marks, u, k) {
      assert Met(g, marks, u, k);
    }
    assert FramesCover(g, w);
    assert FinishedAre(g, w);
  }

  /** The next import, its module met already. */
  function Skipped(w: Walk): Walk
    requires w.frames != []
  {
    var top := |w.frames| - 1;
    w.(frames := w.frames[top := (w.frames[top].0, w.frames[top].1 + 1)])
  }

  lemma Skips(g: Graph, start: seq<Mark>, root: nat, w: Walk)
    requires Walking(g, start, root, w) && w.frames != []
    requires var (m, k) := w.frames[|w.frames| - 1]; k < |g[m]| && Met(g, w.marks, m, k)
    ensures Walking(g, start, root, Skipped(w))
  {
    SkipsLooked(g, start, root, w);
    SkipsFrames(g, start, root, w);
    SkipsRest(g, start, root, w);
    hide LookedAt, Ordered, FinishedAre, FromRoot, Met, FramesHold, FramesCover, FramesChain;
  }

  lemma SkipsFrames(g: Graph, start: seq<Mark>, root: nat, w: Walk)
    requires Walking(g, start, root, w) && w.frames != [] && FramesHold(g, Skipped(w))
    ensures FramesCover(g, Skipped(w)) && FramesChain(g, Skipped(w))
  {
    hide LookedAt, Ordered, FinishedAre, FromRoot, Edge;
    var w' := Skipped(w);
    forall m | 0 <= m < |g| && w'.marks[m] == Visiting ensures OnStack(w'.frames, m) {
      assert OnStack(w.frames, m);
      var i :| 0 <= i < |w.frames| && w.frames[i].0 == m;
      assert w'.frames[i].0 == m;
    }
    forall i | 0 <= i < |w'.frames| - 1 ensures Edge(g, w'.frames[i].0, w'.frames[i + 1].0) {
      assert Edge(g, w.frames[i].0, w.frames[i + 1].0);
    }
  }

  lemma SkipsRest(g: Graph, start: seq<Mark>, root: nat, w: Walk)
    requires Walking(g, start, root, w) && w.frames != []
    ensures var w' := Skipped(w); FinishedAre(g, w') && FromRoot(g, start, root, w')
  {
    hide Reaches, LookedAt, Ordered, FramesCover, FramesChain;
  }

  lemma SkipsLooked(g: Graph, start: seq<Mark>, root: nat, w: Walk)
    requires Walking(g, start, root, w) && w.frames != []
    requires var (m, k) := w.frames[|w.frames| - 1]; k < |g[m]| && Met(g, w.marks, m, k)
    ensures FramesHold(g, Skipped(w)) && LookedAt(g, Skipped(w))
  {
    hide Reaches, Ordered, FinishedAre, FromRoot, FramesCover, FramesChain;
    var top, w' := |w.frames| - 1, Skipped(w);
    forall i, k | 0 <= i < |w'.frames| && 0 <= k < w'.frames[i].1 ensures Met(g, w'.marks, w'.frames[i].0, k) {
      if k < w.frames[i].1 { assert Met(g, w.marks, w.frames[i].0, k); }
    }
  }

  /** The next import, its module new: it is entered. */
  lemma Enters(g: Graph, start: seq<Mark>, root: nat, w: Walk, v: nat)
    requires Walking(g, start, root, w) && w.frames != [] && v < |g| && w.marks[v] == Unvisited
    requires var (m, k) := w.frames[|w.frames| - 1]; k < |g[m]| && g[m][k] == Some(v)
    ensures Walking(g, start, root, Entered(Skipped(w), v))
  {
    var top, s, w' := |w.frames| - 1, Skipped(w), Entered(Skipped(w), v);
    var (m, k) := w.frames[top];
    assert Edge(g, m, v) by { assert g[m][k] in g[m]; }
    assert Reaches(g, root, v) by { TopFromRoot(g, start, root, w); ReachesOn(g, root, m, v); }
    EntersFrames(g, start, root, w, v);
    EntersLooked(g, start, root, w, v);
    EntersRest(g, start, root, w, v);
    hide LookedAt, Ordered, FinishedAre, FromRoot, FramesHold, FramesCover, FramesChain;
  }

  lemma EntersRest(g: Graph, start: seq<Mark>, root: nat, w: Walk, v: nat)
    requires Walking(g, start, root, w) && w.frames != [] && v < |g| && w.marks[v] == Unvisited && Reaches(g, root, v)
    ensures var w' := Entered(Skipped(w), v); FinishedAre(g, w') && FromRoot(g, start, root, w')
  {
    hide Reaches, LookedAt, Ordered, FramesCover, FramesChain;
  }

  lemma TopFromRoot(g: Graph, start: seq<Mark>, root: nat, w: Walk)
    requires Walking(g, start, root, w) && w.frames != []
    ensures Reaches(g, root, w.frames[|w.frames| - 1].0)
  {
    FrameReaches(g, start, root, w, 0, |w.frames| - 1);
  }

  /** A frame reaches every frame above it. */
  lemma {:induction false} FrameReaches(g: Graph, start: seq<Mark>, root: nat, w: Walk, i: nat, j: nat)
    requires Walking(g, start, root, w) && i <= j < |w.frames|
    ensures Reaches(g, w.frames[i].0, w.frames[j].0)
    decreases j
  {
    if i == j {
      ReachesItself(g, w.frames[i].0);
    } else {
      FrameReaches(g, start, root, w, i, j - 1);
      ReachesOn(g, w.frames[i].0, w.frames[j - 1].0, w.frames[j].0);
    }
  }

  lemma EntersFrames(g: Graph, start: seq<Mark>, root: nat, w: Walk, v: nat)
    requires Walking(g, start, root, w) && w.frames != [] && v < |g| && w.marks[v] == Unvisited
    requires var (m, k) := w.frames[|w.frames| - 1]; k < |g[m]| && g[m][k] == Some(v)
    ensures var w' := Entered(Skipped(w), v); FramesHold(g, w') && FramesCover(g, w') && FramesChain(g, w')
  {
    hide Reaches, LookedAt, Ordered, FinishedAre, FromRoot, FramesChain, FramesCover;
    EntersHold(g, w, v);
    EntersCover(g, w, v);
    EntersChain(g, w, v);
  }

  lemma EntersHold(g: Graph, w: Walk, v: nat)
    requires FramesHold(g, w) && w.frames != [] && v < |g| && w.marks[v] == Unvisited
    requires var (m, k) := w.frames[|w.frames| - 1]; k < |g[m]|
    ensures FramesHold(g, Entered(Skipped(w), v))
  {
    var top, w' := |w.frames| - 1, Entered(Skipped(w), v);
    forall i | 0 <= i <= top ensures w'.frames[i].0 == w.frames[i].0 && w'.marks[w'.frames[i].0] == Visiting {
      assert w.marks[w.frames[i].0] == Visiting;
    }
  }

  lemma EntersCover(g: Graph, w: Walk, v: nat)
    requires FramesHold(g, w) && FramesCover(g, w) && w.frames != [] && v < |g|
    ensures FramesCover(g, Entered(Skipped(w), v))
  {
    var top, w' := |w.frames| - 1, Entered(Skipped(w), v);
    forall m | 0 <= m < |g| && w'.marks[m] == Visiting ensures OnStack(w'.frames, m) {
      if m == v {
        assert w'.frames[top + 1].0 == m;
      } else {
        assert OnStack(w.frames, m);
        var i :| 0 <= i < |w.frames| && w.frames[i].0 == m;
        assert w'.frames[i].0 == m;
      }
    }
  }

  lemma EntersChain(g: Graph, w: Walk, v: nat)
    requires FramesHold(g, w) && FramesChain(g, w) && w.frames != [] && v < |g|
    requires var (m, k) := w.frames[|w.frames| - 1]; k < |g[m]| && g[m][k] == Some(v)
    requires FramesHold(g, Entered(Skipped(w), v))
    ensures FramesChain(g, Entered(Skipped(w), v))
  {
    var top, w' := |w.frames| - 1, Entered(Skipped(w), v);
    forall i | 0 <= i < |w'.frames| - 1 ensures Edge(g, w'.frames[i].0, w'.frames[i + 1].0) {
      if i < top {
        assert Edge(g, w.frames[i].0, w.frames[i + 1].0);
      } else {
        var (m, k) := w.frames[top];
        assert g[m][k] in g[m];
      }
    }
  }

  lemma EntersLooked(g: Graph, start: seq<Mark>, root: nat, w: Walk, v: nat)
    requires Walking(g, start, root, w) && w.frames != [] && v < |g| && w.marks[v] == Unvisited
    requires var (m, k) := w.frames[|w.frames| - 1]; k < |g[m]| && g[m][k] == Some(v)
    requires FramesHold(g, Entered(Skipped(w), v))
    ensures LookedAt(g, Entered(Skipped(w), v))
  {
    hide Reaches;
    var top, w' := |w.frames| - 1, Entered(Skipped(w), v);
    forall u, k | 0 <= u < |g| && w'.marks[u] == Done && 0 <= k < |g[u]| ensures Met(g, w'.marks, u, k) {
      assert Met(g, w.marks, u, k);
    }
    forall i, k | 0 <= i < |w'.frames| && 0 <= k < w'.frames[i].1 ensures Met(g, w'.marks, w'.frames[i].0, k) {
      if i < |w.frames| && k < w.frames[i].1 { assert Met(g, w.marks, w.frames[i].0, k); }
    }
  }

  /** Every import looked at: the module is finished. */
  function Left(w: Walk): Walk
    requires w.frames != [] && w.frames[|w.frames| - 1].0 < |w.marks|
  {
    var m := w.frames[|w.frames| - 1].0;
    Walk(w.marks[m := Done], w.frames[..|w.frames| - 1], w.finished + [m])
  }

  lemma Leaves(g: Graph, start: seq<Mark>, root: nat, w: Walk)
    requires Walking(g, start, root, w) && w.frames != []
    requires var (m, k) := w.frames[|w.frames| - 1]; k == |g[m]|
    ensures Walking(g, start, root, Left(w))
  {
    LeavesOrdered(g, start, root, w);
    LeavesFrames(g, start, root, w);
    LeavesLooked(g, start, root, w);
    LeavesRest(g, start, root, w);
    hide LookedAt, Ordered, FinishedAre, FromRoot, FramesHold, FramesCover, FramesChain;
  }

  lemma LeavesFrames(g: Graph, start: seq<Mark>, root: nat, w: Walk)
    requires Walking(g, start, root, w) && w.frames != []
    ensures FramesHold(g, Left(w)) && FramesCover(g, Left(w)) && FramesChain(g, Left(w))
  {
    hide LookedAt, Ordered, FinishedAre, FromRoot, Edge;
    var w' := Left(w);
    forall u | 0 <= u < |g| && w'.marks[u] == Visiting ensures OnStack(w'.frames, u) {
      assert OnStack(w.frames, u);
      var i :| 0 <= i < |w.frames| && w.frames[i].0 == u;
      assert w'.frames[i].0 == u;
    }
    forall i | 0 <= i < |w'.frames| - 1 ensures Edge(g, w'.frames[i].0, w'.frames[i + 1].0) {
      assert Edge(g, w.frames[i].0, w.frames[i + 1].0);
    }
  }

  lemma LeavesLooked(g: Graph, start: seq<Mark>, root: nat, w: Walk)
    requires Walking(g, start, root, w) && w.frames != [] && FramesHold(g, Left(w))
    requires var (m, k) := w.frames[|w.frames| - 1]; k == |g[m]|
    ensures LookedAt(g, Left(w))
  {
    hide Ordered, FinishedAre, FromRoot, FramesCover, FramesChain;
    var w' := Left(w);
    forall u, k | 0 <= u < |g| && w'.marks[u] == Done && 0 <= k < |g[u]| ensures Met(g, w'.marks, u, k) {
      assert Met(g, w.marks, u, k);
    }
    forall i, k | 0 <= i < |w'.frames| && 0 <= k < w'.frames[i].1 ensures Met(g, w'.marks, w'.frames[i].0, k) {
      assert Met(g, w.marks, w.frames[i].0, k);
    }
  }

  lemma LeavesRest(g: Graph, start: seq<Mark>, root: nat, w: Walk)
    requires Walking(g, start, root, w) && w.frames != []
    ensures FinishedAre(g, Left(w)) && FromRoot(g, start, root, Left(w))
  {
    hide Reaches, LookedAt, Ordered, FramesCover, FramesChain;
    var w', m := Left(w), w.frames[|w.frames| - 1].0;
    forall u | 0 <= u < |g| && w'.marks[u] == Done ensures u in w'.finished {
      if u == m { assert w'.finished[|w.finished|] == m; } else { assert u in w.finished; }
    }
  }

  lemma LeavesOrdered(g: Graph, start: seq<Mark>, root: nat, w: Walk)
    requires Walking(g, start, root, w) && w.frames != []
    requires var (m, k) := w.frames[|w.frames| - 1]; k == |g[m]|
    ensures Ordered(g, Left(w).finished)
  {
    var top, n := |w.frames| - 1, |w.finished|;
    var m, after := w.frames[top].0, Left(w).finished;
    forall p: nat, v: nat | 0 <= p < |after| && Edge(g, after[p], v)
      ensures Earlier(after, v, p) || Reaches(g, v, after[p])
    {
      assert after[..n] == w.finished;
      if p < n {
        assert after[..p] == w.finished[..p];
        assert Edge(g, w.finished[p], v);
        assert Earlier(w.finished, v, p) || Reaches(g, v, w.finished[p]);
      } else {
        var k :| 0 <= k < |g[m]| && g[m][k] == Some(v);
        assert Met(g, w.marks, m, k);
        if w.marks[v] == Done {
          assert v in w.finished;
        } else {
          KnownMarks(g, start, root, w, v);
          var i :| 0 <= i < |w.frames| && w.frames[i].0 == v;
          FrameReaches(g, start, root, w, i, top);
        }
      }
    }
  }

  /** A module met and not done is on the stack. */
  lemma KnownMarks(g: Graph, start: seq<Mark>, root: nat, w: Walk, v: nat)
    requires Walking(g, start, root, w) && v < |g| && w.marks[v] == Visiting
    ensures OnStack(w.frames, v)
  {}

  // ----- before anything is finished -----

  /** The first `k` imports of `m` lead to modules of `met`. */
  predicate LeadBack(g: Graph, m: nat, k: nat, met: seq<nat>)
    requires m < |g| && k <= |g[m]|
  {
    forall j :: 0 <= j < k ==> g[m][j].Some? && g[m][j].value in met
  }

  /** Import `k` of the last module of `met` is the first that does not lead back. */
  ghost predicate FirstNew(g: Graph, met: seq<nat>, k: nat, target: Option<nat>) {
    && met != []
    && var m := met[|met| - 1];
    && m < |g| && k < |g[m]| && LeadBack(g, m, k, met) && g[m][k] == target && (target.Some? ==> target.value !in met)
  }

  /** From each module of the path to the next leads the first import that is new. */
  ghost predicate Leftmost(g: Graph, p: seq<nat>) {
    && p != [] && (forall i :: 0 <= i < |p| ==> p[i] < |g|)
    && (forall i :: 0 < i < |p| ==> StepsTo(g, p[..i], p[i]))
  }

  ghost predicate StepsTo(g: Graph, met: seq<nat>, v: nat) {
    exists k: nat :: FirstNew(g, met, k, Some(v))
  }

  /** The first new import of the last module leads nowhere. */
  ghost predicate Stuck(g: Graph, p: seq<nat>) {
    exists k: nat :: FirstNew(g, p, k, None)
  }

  /** Following from each module its first import not met on the way, one comes to an
      import that leads nowhere, and not to a module without new imports. */
  ghost predicate BreaksFirst(g: Graph, root: nat) {
    exists p :: Leftmost(g, p) && p[0] == root && Stuck(g, p)
  }

  lemma FirstNewUnique(g: Graph, met: seq<nat>, k: nat, a: Option<nat>, k': nat, b: Option<nat>)
    requires FirstNew(g, met, k, a) && FirstNew(g, met, k', b)
    ensures k == k' && a == b
  {}

  /** There is one leftmost path, as far as it goes. */
  lemma {:induction false} LeftmostUnique(g: Graph, p: seq<nat>, q: seq<nat>, i: nat)
    requires Leftmost(g, p) && Leftmost(g, q) && p[0] == q[0] && i < |p| && i < |q|
    ensures p[..i + 1] == q[..i + 1]
    decreases i
  {
    hide FirstNew;
    if i == 0 {
      assert p[..1] == [p[0]] == q[..1];
    } else {
      LeftmostUnique(g, p, q, i - 1);
      assert StepsTo(g, p[..i], p[i]) && StepsTo(g, q[..i], q[i]);
      StepUnique(g, p[..i], p[i], q[i]);
      assert p[..i + 1] == p[..i] + [p[i]] && q[..i + 1] == q[..i] + [q[i]];
    }
  }

  lemma StepUnique(g: Graph, met: seq<nat>, v: nat, v': nat)
    requires StepsTo(g, met, v) && StepsTo(g, met, v')
    ensures v == v'
  {
    hide FirstNew;
    var k: nat :| FirstNew(g, met, k, Some(v));
    var k': nat :| FirstNew(g, met, k', Some(v'));
    FirstNewUnique(g, met, k, Some(v), k', Some(v'));
  }

  lemma StepNotStuck(g: Graph, met: seq<nat>, v: nat)
    requires StepsTo(g, met, v)
    ensures !Stuck(g, met)
  {
    hide FirstNew;
    var k: nat :| FirstNew(g, met, k, Some(v));
    forall k': nat ensures !FirstNew(g, met, k', None) {
      if FirstNew(g, met, k', None) { FirstNewUnique(g, met, k, Some(v), k', None); }
    }
  }

  lemma NothingNew(g: Graph, p: seq<nat>)
    requires p != [] && p[|p| - 1] < |g| && LeadBack(g, p[|p| - 1], |g[p[|p| - 1]]|, p)
    ensures forall v: nat :: !StepsTo(g, p, v)
    ensures !Stuck(g, p)
  {}

  /** A leftmost path whose last module has no new import breaks nowhere. */
  lemma FinishesFirst(g: Graph, root: nat, p: seq<nat>)
    requires Leftmost(g, p) && p[0] == root
    requires LeadBack(g, p[|p| - 1], |g[p[|p| - 1]]|, p)
    ensures !BreaksFirst(g, root)
  {
    assert p != [] && p[|p| - 1] < |g|;
    hide FirstNew, LeadBack, Leftmost;
    NothingNew(g, p);
    forall q | q != [] && Leftmost(g, q) && q[0] == root ensures !Stuck(g, q) {
      OneContinues(g, p, q);
    }
  }

  /** Of two leftmost paths from one module one goes on where the other ends. */
  lemma OneContinues(g: Graph, p: seq<nat>, q: seq<nat>)
    requires Leftmost(g, p) && Leftmost(g, q) && p[0] == q[0]
    ensures p == q || !Stuck(g, q) || exists v: nat :: StepsTo(g, p, v)
  {
    hide FirstNew;
    LeftmostUnique(g, p, q, Min(|p|, |q|) - 1);
    assert p[..|p|] == p && q[..|q|] == q;
    if |q| < |p| {
      assert StepsTo(g, p[..|q|], p[|q|]);
      StepNotStuck(g, p[..|q|], p[|q|]);
    } else if |p| < |q| {
      assert StepsTo(g, q[..|p|], q[|p|]);
    }
  }

  predicate AllUnvisited(marks: seq<Mark>) { forall i :: 0 <= i < |marks| ==> marks[i] == Unvisited }

  function Modules(frames: seq<Frame>): (p: seq<nat>)
    ensures |p| == |frames| && forall i :: 0 <= i < |p| ==> p[i] == frames[i].0
  {
    seq(|frames|, i requires 0 <= i < |frames| => frames[i].0)
  }

  /** The frames go down the leftmost path, and the imports looked at last lead back. */
  ghost predicate OnWay(g: Graph, root: nat, frames: seq<Frame>) {
    && Leftmost(g, Modules(frames)) && frames[0].0 == root
    && var (m, k) := frames[|frames| - 1];
    k <= |g[m]| && LeadBack(g, m, k, Modules(frames))
  }

  /** The first walk keeps to the leftmost path until it finishes a module. */
  ghost predicate Descended(g: Graph, start: seq<Mark>, root: nat, earlier: seq<nat>, w: Walk) {
    earlier == [] && AllUnvisited(start) ==>
      if w.finished == [] then OnWay(g, root, w.frames) else !BreaksFirst(g, root)
  }

  lemma DescentStarts(g: Graph, start: seq<Mark>, root: nat, earlier: seq<nat>)
    requires root < |start| == |g|
    ensures Descended(g, start, root, earlier, Entered(Walk(start, [], earlier), root))
  {}

  /** Looking at the next import, which leads to `v`. */
  ghost predicate LooksOn(g: Graph, w: Walk, v: nat, w': Walk) {
    && w.frames != [] && |w.marks| == |g| && v < |g|
    && var (m, k) := w.frames[|w.frames| - 1];
    && m < |g| && k < |g[m]| && g[m][k] == Some(v)
    && w' == if w.marks[v] == Unvisited then Entered(Skipped(w), v) else Skipped(w)
  }

  lemma DescentLooks(g: Graph, start: seq<Mark>, root: nat, earlier: seq<nat>, w: Walk, v: nat, w': Walk)
    requires Walking(g, start, root, w) && Descended(g, start, root, earlier, w) && LooksOn(g, w, v, w')
    ensures Descended(g, start, root, earlier, w')
  {
    hide OnWay, BreaksFirst, Walking;
    if earlier == [] && AllUnvisited(start) && w.finished == [] {
      MetIsOnStack(g, start, root, w, v);
      if v in Modules(w.frames) { SkipOnWay(g, root, w.frames, v); } else { EnterOnWay(g, root, w.frames, v); }
    }
  }

  /** Before anything is finished, the modules met are those on the stack. */
  lemma MetIsOnStack(g: Graph, start: seq<Mark>, root: nat, w: Walk, v: nat)
    requires Walking(g, start, root, w) && w.finished == [] && v < |g|
    ensures w.marks[v] != Unvisited <==> v in Modules(w.frames)
  {
    hide Ordered, LookedAt, FromRoot, FramesChain;
    if v in Modules(w.frames) {
      var i :| 0 <= i < |w.frames| && Modules(w.frames)[i] == v;
      assert w.marks[w.frames[i].0] == Visiting;
    }
    if w.marks[v] == Visiting {
      assert OnStack(w.frames, v);
      var i :| 0 <= i < |w.frames| && w.frames[i].0 == v;
      assert Modules(w.frames)[i] == v;
    }
  }

  lemma SkipOnWay(g: Graph, root: nat, frames: seq<Frame>, v: nat)
    requires OnWay(g, root, frames) && v in Modules(frames)
    requires var (m, k) := frames[|frames| - 1]; k < |g[m]| && g[m][k] == Some(v)
    ensures var (m, k) := frames[|frames| - 1]; OnWay(g, root, frames[|frames| - 1 := (m, k + 1)])
  {
    hide StepsTo;
    var (m, k) := frames[|frames| - 1];
    assert Modules(frames[|frames| - 1 := (m, k + 1)]) == Modules(frames);
  }

  lemma EnterOnWay(g: Graph, root: nat, frames: seq<Frame>, v: nat)
    requires OnWay(g, root, frames) && v !in Modules(frames) && v < |g|
    requires var (m, k) := frames[|frames| - 1]; k < |g[m]| && g[m][k] == Some(v)
    ensures var (m, k) := frames[|frames| - 1]; OnWay(g, root, frames[|frames| - 1 := (m, k + 1)] + [(v, 0)])
  {
    hide StepsTo;
    var (m, k) := frames[|frames| - 1];
    var p, q := Modules(frames), Modules(frames[|frames| - 1 := (m, k + 1)] + [(v, 0)]);
    assert q == p + [v];
    StepHere(g, p, k, v);
    forall i | 0 < i < |q| ensures StepsTo(g, q[..i], q[i]) {
      if i < |p| { assert q[..i] == p[..i] && StepsTo(g, p[..i], p[i]); } else { assert q[..i] == p; }
    }
  }

  lemma StepHere(g: Graph, p: seq<nat>, k: nat, v: nat)
    requires FirstNew(g, p, k, Some(v))
    ensures StepsTo(g, p, v)
  {}

  lemma DescentLeaves(g: Graph, start: seq<Mark>, root: nat, earlier: seq<nat>, w: Walk)
    requires Walking(g, start, root, w) && w.frames != [] && Descended(g, start, root, earlier, w)
    requires var (m, k) := w.frames[|w.frames| - 1]; k >= |g[m]|
    ensures Descended(g, start, root, earlier, Left(w))
  {
    hide Ordered, LookedAt, FromRoot, FramesChain, FramesCover, BreaksFirst, Leftmost;
    if earlier == [] && AllUnvisited(start) && w.finished == [] { FinishesFirst(g, root, Modules(w.frames)); }
  }

  /** When the first walk comes to an import that leads nowhere, it has finished nothing
      exactly if the leftmost path breaks. */
  lemma DescentBreaks(g: Graph, start: seq<Mark>, root: nat, earlier: seq<nat>, w: Walk)
    requires Walking(g, start, root, w) && w.frames != [] && Descended(g, start, root, earlier, w)
    requires var (m, k) := w.frames[|w.frames| - 1]; k < |g[m]| && g[m][k].None?
    ensures earlier == [] && AllUnvisited(start) ==> (w.finished == [] <==> BreaksFirst(g, root))
  {
    hide Ordered, LookedAt, FromRoot, FramesChain, FramesCover, Leftmost;
    if earlier == [] && AllUnvisited(start) && w.finished == [] {
      var (m, k) := w.frames[|w.frames| - 1];
      assert FirstNew(g, Modules(w.frames), k, None);
      assert Stuck(g, Modules(w.frames));
    }
  }

  /** A module that imports another and then something that leads nowhere: the link
      fails, and the other module was finished first. */
  lemma DependencyFinishesFirst()
    ensures var g: Graph := [[Some(1), None], []];
            g[0][1].None? && Reaches(g, 0, 0) && !BreaksFirst(g, 0)
  {
    var g: Graph := [[Some(1), None], []];
    ReachesItself(g, 0);
    assert FirstNew(g, [0], 0, Some(1));
    var p := [0, 1];
    assert p[..1] == [0];
    assert StepsTo(g, p[..1], p[1]);
    FinishesFirst(g, 0, p);
  }

  // ----- ends -----

  /** A walk that has come to its end leaves its root, and what the root reaches, done. */
  lemma Ends(g: Graph, start: seq<Mark>, root: nat, w: Walk)
    requires Walking(g, start, root, w) && w.frames == [] && w.marks[root] == Done
    ensures Settled(g, w.marks, w.finished)
    ensures forall m: nat :: m < |g| && Reaches(g, root, m) ==> w.marks[m] == Done
    ensures forall m: nat :: m < |g| && w.marks[m] == Done ==> start[m] == Done || Reaches(g, root, m)
  {
    assert forall m :: 0 <= m < |g| && w.marks[m] == Visiting ==> OnStack(w.frames, m);
    hide Reaches;
    forall m: nat | m < |g| && Reaches(g, root, m) ensures w.marks[m] == Done { DoneClosed(g, start, root, w, m); }
  }

  lemma DoneClosed(g: Graph, start: seq<Mark>, root: nat, w: Walk, m: nat)
    requires Walking(g, start, root, w) && w.frames == [] && w.marks[root] == Done && m < |g| && Reaches(g, root, m)
    ensures w.marks[m] == Done
  {
    var inside := seq(|g|, i requires 0 <= i < |g| => w.marks[i] == Done);
    forall u: nat, v: nat | Edge(g, u, v) && inside[u] ensures inside[v] {
      var k :| 0 <= k < |g[u]| && g[u][k] == Some(v);
      assert Met(g, w.marks, u, k);
      if w.marks[v] == Visiting { KnownMarks(g, start, root, w, v); }
    }
    var p :| Joins(g, root, m, p);
    ClosedContains(g, inside, p);
  }

  // ----- progress -----

  function Unseen(marks: seq<Mark>): nat {
    if marks == [] then 0 else Unseen(marks[..|marks| - 1]) + if marks[|marks| - 1] == Unvisited then 1 else 0
  }

  lemma {:induction false} UnseenUpdate(marks: seq<Mark>, m: nat, mark: Mark)
    requires m < |marks| && mark != Unvisited
    ensures Unseen(marks[m := mark]) == Unseen(marks) - if marks[m] == Unvisited then 1 else 0
    decreases |marks|
  {
    var last := |marks| - 1;
    if m < last {
      assert marks[m := mark][..last] == marks[..last][m := mark];
      UnseenUpdate(marks[..last], m, mark);
    } else {
      assert marks[m := mark][..last] == marks[..last];
    }
  }

  /** Imports still to look at, and frames still to leave. */
  function Work(g: Graph, frames: seq<Frame>): nat {
    if frames == [] then 0
    else
      var (m, k) := frames[|frames| - 1];
      Work(g, frames[..|frames| - 1]) + 1 + if m < |g| && k <= |g[m]| then |g[m]| - k else 0
  }

  lemma WorkLess(g: Graph, w: Walk)
    requires FramesHold(g, w) && w.frames != []
    ensures Work(g, w.frames[..|w.frames| - 1]) < Work(g, w.frames)
    ensures var (m, k) := w.frames[|w.frames| - 1]; k < |g[m]| ==> Work(g, Skipped(w).frames) < Work(g, w.frames)
  {
    assert Skipped(w).frames[..|w.frames| - 1] == w.frames[..|w.frames| - 1];
  }

  /** The frames are different modules, so there are no more of them than modules. */
  lemma FewFrames(g: Graph, w: Walk)
    requires FramesHold(g, w)
    ensures |w.frames| <= |g|
  {
    hide FrameSet, Names;
    var s := FrameSet(w.frames, |w.frames|);
    FrameSetSize(w.frames, |w.frames|);
    NamesAre(|g|);
    forall m | m in s ensures m in Names(|g|) {
      var i := FromFrame(w.frames, |w.frames|, m);
    }
    SmallerSet(s, Names(|g|));
  }

  ghost function FrameSet(frames: seq<Frame>, n: nat): set<nat>
    requires n <= |frames|
  {
    if n == 0 then {} else FrameSet(frames, n - 1) + {frames[n - 1].0}
  }

  ghost function Names(n: nat): set<nat> { if n == 0 then {} else Names(n - 1) + {n - 1} }

  lemma {:induction false} NamesAre(n: nat)
    ensures |Names(n)| == n && forall m: nat :: m in Names(n) <==> m < n
  {
    if n > 0 { NamesAre(n - 1); }
  }

  lemma {:induction false} FromFrame(frames: seq<Frame>, n: nat, m: nat) returns (i: nat)
    requires n <= |frames| && m in FrameSet(frames, n)
    ensures i < n && frames[i].0 == m
  {
    if frames[n - 1].0 == m { i := n - 1; } else { i := FromFrame(frames, n - 1, m); }
  }

  lemma {:induction false} FrameSetSize(frames: seq<Frame>, n: nat)
    requires n <= |frames| && forall i, j :: 0 <= i < j < |frames| ==> frames[i].0 != frames[j].0
    ensures |FrameSet(frames, n)| == n
  {
    if n > 0 {
      FrameSetSize(frames, n - 1);
      if frames[n - 1].0 in FrameSet(frames, n - 1) {
        var i := FromFrame(frames, n - 1, frames[n - 1].0);
        assert false;
      }
    }
  }

  lemma {:induction false} SmallerSet(a: set<nat>, b: set<nat>)
    requires a <= b
    ensures |a| <= |b|
  {
    if a != {} {
      var x :| x in a;
      SmallerSet(a - {x}, b - {x});
    }
  }
}
