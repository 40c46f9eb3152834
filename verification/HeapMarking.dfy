/** Marking: the cell graph, reachability, and the tri-colour invariant. */
module HeapMarking {
  import opened Words
  import opened HeapModel

  /** The handles in a cell of this kind with these bytes. */
  type Tracer = (CellKind, seq<byte>) -> seq<Handle>

  /** The storage when a collection began. */
  datatype Snapshot = Snapshot(arena: seq<byte>, slots: seq<Slot>, cells: seq<Cell>, used: nat)

  ghost predicate WellFormed(s: Snapshot) { Layout(s.arena, s.cells, s.used) && Owned(s.slots, s.cells) }

  /** The handles the cell of slot `i` holds. */
  ghost function Children(t: Tracer, s: Snapshot, i: int): seq<Handle>
    requires WellFormed(s) && 0 <= i < |s.slots| && s.slots[i].kind != Free
  {
    SlotInside(s.arena, s.slots, s.cells, s.used, i);
    t(s.slots[i].kind, Content(s.arena, s.slots[i]))
  }

  ghost predicate InUse(s: Snapshot, i: int) { 0 <= i < |s.slots| && s.slots[i].kind != Free }

  /** The cell of slot `i` holds a live handle to slot `j`. */
  ghost predicate Edge(t: Tracer, s: Snapshot, i: int, j: int)
    requires WellFormed(s)
  {
    InUse(s, i) && exists h :: h in Children(t, s, i) && Names(s.slots, h) && h.index == j
  }

  ghost predicate Root(s: Snapshot, roots: seq<Handle>, i: int) {
    exists r :: r in roots && Names(s.slots, r) && r.index == i
  }

  ghost predicate IsPath(t: Tracer, s: Snapshot, roots: seq<Handle>, path: seq<int>)
    requires WellFormed(s)
  {
    && path != [] && Root(s, roots, path[0])
    && forall k :: 0 < k < |path| ==> Edge(t, s, path[k - 1], path[k])
  }

  /** Some chain of live handles leads from a root to slot `i`. */
  ghost predicate Reachable(t: Tracer, s: Snapshot, roots: seq<Handle>, i: int)
    requires WellFormed(s)
  {
    exists path :: IsPath(t, s, roots, path) && path[|path| - 1] == i
  }

  lemma RootIsReachable(t: Tracer, s: Snapshot, roots: seq<Handle>, i: int)
    requires WellFormed(s) && Root(s, roots, i)
    ensures Reachable(t, s, roots, i)
  {
    assert IsPath(t, s, roots, [i]);
  }

  lemma ChildIsReachable(t: Tracer, s: Snapshot, roots: seq<Handle>, i: int, j: int)
    requires WellFormed(s) && Reachable(t, s, roots, i) && Edge(t, s, i, j)
    ensures Reachable(t, s, roots, j)
  {
    hide WellFormed, Edge, Root;
    var path :| IsPath(t, s, roots, path) && path[|path| - 1] == i;
    assert IsPath(t, s, roots, path + [j]) by {
      assert (path + [j])[0] == path[0];
    }
    assert (path + [j])[|path|] == j;
  }

  // ----- the invariant -----

  /** Only marks have changed since the snapshot. */
  ghost predicate OnlyMarks(s: Snapshot, slots: seq<Slot>) {
    && |slots| == |s.slots|
    && forall i :: 0 <= i < |slots| ==> slots[i] == s.slots[i].(mark := slots[i].mark)
  }

  /** Whatever is shaded is reachable. */
  ghost predicate ShadedReachable(t: Tracer, s: Snapshot, roots: seq<Handle>, slots: seq<Slot>)
    requires WellFormed(s)
  {
    forall i :: 0 <= i < |slots| && slots[i].mark != White ==> Reachable(t, s, roots, i)
  }

  ghost predicate RootsShaded(s: Snapshot, roots: seq<Handle>, slots: seq<Slot>) {
    forall i :: 0 <= i < |slots| && Root(s, roots, i) ==> slots[i].mark != White
  }

  /** A black cell has no white child. */
  ghost predicate NoWhiteChild(t: Tracer, s: Snapshot, slots: seq<Slot>)
    requires WellFormed(s)
  {
    forall i, j :: 0 <= i < |slots| && 0 <= j < |slots| && slots[i].mark == Black && Edge(t, s, i, j)
      ==> slots[j].mark != White
  }

  ghost predicate MarkInvariant(t: Tracer, s: Snapshot, roots: seq<Handle>, slots: seq<Slot>) {
    && WellFormed(s) && OnlyMarks(s, slots)
    && ShadedReachable(t, s, roots, slots) && RootsShaded(s, roots, slots) && NoWhiteChild(t, s, slots)
  }

  /** The table after shading a handle: a live white cell turns grey. */
  function Shaded(slots: seq<Slot>, h: Handle): (r: seq<Slot>)
    ensures |r| == |slots|
  {
    if Names(slots, h) && slots[h.index].mark == White
    then slots[h.index := slots[h.index].(mark := Grey)] else slots
  }

  function ShadedAll(slots: seq<Slot>, hs: seq<Handle>): (r: seq<Slot>)
    ensures |r| == |slots|
  {
    if hs == [] then slots else Shaded(ShadedAll(slots, hs[..|hs| - 1]), hs[|hs| - 1])
  }

  /** Shading darkens: nothing turns white, nothing turns or stops being black. */
  ghost predicate Darker(slots: seq<Slot>, slots': seq<Slot>) {
    && |slots'| == |slots|
    && forall i :: 0 <= i < |slots| ==>
         && slots'[i] == slots[i].(mark := slots'[i].mark)
         && (slots'[i].mark == slots[i].mark || (slots[i].mark == White && slots'[i].mark == Grey))
  }

  lemma {:induction false} ShadedAllDarker(slots: seq<Slot>, hs: seq<Handle>)
    ensures Darker(slots, ShadedAll(slots, hs))
    ensures forall h :: h in hs && Names(slots, h) ==> ShadedAll(slots, hs)[h.index].mark != White
    ensures forall i :: 0 <= i < |slots| && ShadedAll(slots, hs)[i].mark != slots[i].mark ==>
              exists h :: h in hs && Names(slots, h) && h.index == i
  {
    if hs != [] {
      var last := |hs| - 1;
      ShadedAllDarker(slots, hs[..last]);
      assert hs == hs[..last] + [hs[last]];
    }
  }

  /** Shading the roots of a clean table establishes the invariant. */
  lemma RootsStart(t: Tracer, s: Snapshot, roots: seq<Handle>, white: seq<Slot>)
    requires WellFormed(s) && OnlyMarks(s, white) && forall i :: 0 <= i < |white| ==> white[i].mark == White
    ensures MarkInvariant(t, s, roots, ShadedAll(white, roots))
  {
    ShadedAllDarker(white, roots);
    var slots := ShadedAll(white, roots);
    forall i | 0 <= i < |slots| && slots[i].mark != White ensures Reachable(t, s, roots, i) {
      var h :| h in roots && Names(white, h) && h.index == i;
      assert Names(s.slots, h);
      RootIsReachable(t, s, roots, i);
    }
    forall i | 0 <= i < |slots| && Root(s, roots, i) ensures slots[i].mark != White {
      var r :| r in roots && Names(s.slots, r) && r.index == i;
      assert Names(white, r);
    }
  }

  /** Blackening a grey cell and shading all its children keeps the invariant. */
  lemma TraceKeeps(t: Tracer, s: Snapshot, roots: seq<Handle>, slots: seq<Slot>, i: int)
    requires MarkInvariant(t, s, roots, slots) && 0 <= i < |slots| && slots[i].mark == Grey
    ensures InUse(s, i)
    ensures MarkInvariant(t, s, roots, ShadedAll(slots[i := slots[i].(mark := Black)], Children(t, s, i)))
  {
    hide WellFormed, Children, Reachable, ShadedAll;
    ReachableInUse(t, s, roots, i);
    var kids := Children(t, s, i);
    var black := slots[i := slots[i].(mark := Black)];
    ShadedAllDarker(black, kids);
    NewShadedReachable(t, s, roots, slots, i);
    NewNoWhiteChild(t, s, slots, i);
  }

  lemma NewShadedReachable(t: Tracer, s: Snapshot, roots: seq<Handle>, slots: seq<Slot>, i: int)
    requires WellFormed(s) && OnlyMarks(s, slots) && ShadedReachable(t, s, roots, slots)
    requires InUse(s, i) && slots[i].mark == Grey
    ensures ShadedReachable(t, s, roots, ShadedAll(slots[i := slots[i].(mark := Black)], Children(t, s, i)))
  {
    hide WellFormed, Children, Reachable, ShadedAll;
    var kids := Children(t, s, i);
    var black := slots[i := slots[i].(mark := Black)];
    var after := ShadedAll(black, kids);
    ShadedAllDarker(black, kids);
    forall j | 0 <= j < |after| && after[j].mark != White ensures Reachable(t, s, roots, j) {
      if slots[j].mark == White {
        var h :| h in kids && Names(black, h) && h.index == j;
        assert Names(s.slots, h);
        assert Edge(t, s, i, j);
        ChildIsReachable(t, s, roots, i, j);
      }
    }
  }

  lemma NewNoWhiteChild(t: Tracer, s: Snapshot, slots: seq<Slot>, i: int)
    requires WellFormed(s) && OnlyMarks(s, slots) && NoWhiteChild(t, s, slots)
    requires InUse(s, i) && slots[i].mark == Grey
    ensures NoWhiteChild(t, s, ShadedAll(slots[i := slots[i].(mark := Black)], Children(t, s, i)))
  {
    hide WellFormed, Children, ShadedAll;
    var kids := Children(t, s, i);
    var black := slots[i := slots[i].(mark := Black)];
    var after := ShadedAll(black, kids);
    ShadedAllDarker(black, kids);
    forall p, q | 0 <= p < |after| && 0 <= q < |after| && after[p].mark == Black && Edge(t, s, p, q)
      ensures after[q].mark != White
    {
      if p == i {
        var h :| h in kids && Names(s.slots, h) && h.index == q;
        assert Names(black, h);
      } else {
        assert slots[p].mark == Black;
      }
    }
  }

  lemma ReachableInUse(t: Tracer, s: Snapshot, roots: seq<Handle>, i: int)
    requires WellFormed(s) && Reachable(t, s, roots, i)
    ensures InUse(s, i)
  {
    var path :| IsPath(t, s, roots, path) && path[|path| - 1] == i;
    if |path| > 1 { assert Edge(t, s, path[|path| - 2], path[|path| - 1]); }
  }

  /** With nothing grey left, black is exactly reachable. */
  lemma MarkingComplete(t: Tracer, s: Snapshot, roots: seq<Handle>, slots: seq<Slot>, i: int)
    requires MarkInvariant(t, s, roots, slots) && 0 <= i < |slots|
    requires forall j :: 0 <= j < |slots| ==> slots[j].mark != Grey
    ensures slots[i].mark == Black <==> Reachable(t, s, roots, i)
  {
    if Reachable(t, s, roots, i) {
      var path :| IsPath(t, s, roots, path) && path[|path| - 1] == i;
      PathIsBlack(t, s, roots, slots, path, |path| - 1);
    }
  }

  lemma {:induction false} PathIsBlack(t: Tracer, s: Snapshot, roots: seq<Handle>, slots: seq<Slot>, path: seq<int>, n: int)
    requires MarkInvariant(t, s, roots, slots) && IsPath(t, s, roots, path) && 0 <= n < |path|
    requires forall j :: 0 <= j < |slots| ==> slots[j].mark != Grey
    ensures 0 <= path[n] < |slots| && slots[path[n]].mark == Black
  {
    hide WellFormed, Root, ShadedReachable, OnlyMarks, Edge;
    EdgesInside(t, s, roots, slots, path, n);
    if n > 0 {
      PathIsBlack(t, s, roots, slots, path, n - 1);
      assert Edge(t, s, path[n - 1], path[n]);
    }
  }

  lemma EdgesInside(t: Tracer, s: Snapshot, roots: seq<Handle>, slots: seq<Slot>, path: seq<int>, n: int)
    requires WellFormed(s) && OnlyMarks(s, slots) && IsPath(t, s, roots, path) && 0 <= n < |path|
    ensures 0 <= path[n] < |slots|
  {
    hide WellFormed, Children;
    if n > 0 { assert Edge(t, s, path[n - 1], path[n]); }
  }

  // ----- progress -----

  /** Cells not yet visited. */
  function CountUnvisited(slots: seq<Slot>): nat {
    if slots == [] then 0
    else CountUnvisited(slots[..|slots| - 1]) + if slots[|slots| - 1].mark != Black then 1 else 0
  }

  lemma {:induction false} UnvisitedDrops(slots: seq<Slot>, i: nat)
    requires i < |slots| && slots[i].mark != Black
    ensures CountUnvisited(slots[i := slots[i].(mark := Black)]) == CountUnvisited(slots) - 1
  {
    var last, slot := |slots| - 1, slots[i].(mark := Black);
    if i < last {
      assert slots[i := slot][..last] == slots[..last][i := slot];
      UnvisitedDrops(slots[..last], i);
    } else {
      assert slots[i := slot][..last] == slots[..last];
    }
  }

  lemma {:induction false} UnvisitedDarker(slots: seq<Slot>, slots': seq<Slot>)
    requires Darker(slots, slots')
    ensures CountUnvisited(slots') == CountUnvisited(slots)
  {
    if slots != [] {
      var last := |slots| - 1;
      assert slots'[last].mark == slots[last].mark || (slots[last].mark == White && slots'[last].mark == Grey);
      UnvisitedDarker(slots[..last], slots'[..last]);
    }
  }
}
