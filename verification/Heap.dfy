/** The heap object: allocation, handles, and collection in slices. */
module Heaps {
  import opened Words
  import opened HeapModel
  import opened HeapMarking
  import opened HeapCompaction

  datatype Phase = Idle | Marking | Compacting

  datatype HeapError = ArenaFull | SlotsFull | StaleHandle | Collecting

  const EMPTY_SLOT := Slot(0, 0, 1, Free, White)

  /** The last collection: what it started from, the marks it ended up with, and
      how many cells the compactor has read. */
  datatype Collection = Collection(start: Snapshot, roots: seq<Handle>, base: Snapshot, done: nat)

  /** While marking: nothing but marks has changed, and the tri-colour invariant holds. */
  ghost predicate MarkingState(t: Tracer, g: Collection, arena: seq<byte>, slots: seq<Slot>, cells: seq<Cell>, used: nat) {
    && g.start.arena == arena && g.start.cells == cells && g.start.used == used
    && MarkInvariant(t, g.start, g.roots, slots)
  }

  /** The marks compaction works from: complete, and otherwise the table as it was. */
  ghost predicate FullyMarked(t: Tracer, start: Snapshot, roots: seq<Handle>, base: Snapshot) {
    && base == Snapshot(start.arena, base.slots, start.cells, start.used)
    && MarkInvariant(t, start, roots, base.slots)
    && forall i :: 0 <= i < |base.slots| ==> base.slots[i].mark != Grey
  }

  ghost predicate CompactingState(t: Tracer, g: Collection, arena: seq<byte>, slots: seq<Slot>, cells: seq<Cell>, used: nat,
                                  read: nat, write: nat) {
    && FullyMarked(t, g.start, g.roots, g.base) && CompactInvariant(g.base, g.done, arena, slots)
    && g.base.cells == cells && g.base.used == used
    && read == ReadAt(g.base, g.done) && write == WriteAt(g.base, g.done)
  }

  ghost predicate IdleState(arena: seq<byte>, slots: seq<Slot>, cells: seq<Cell>, used: nat) {
    Layout(arena, cells, used) && Owned(slots, cells)
  }

  class Heap {
    const arena: array<byte>
    const slots: array<Slot>
    const worklist: array<u32>
    const children: Tracer
    var worklistLength: nat
    var used: nat
    var live: nat
    var phase: Phase
    var compactRead: nat
    var compactWrite: nat
    var reclaimedCells: nat
    var reclaimedBytes: nat
    var freeHint: nat

    ghost var cells: seq<Cell>
    ghost var gc: Collection

    ghost predicate Sized()
      reads this, worklist
    {
      && arena.Length < 0xFFFF_FFF0 && slots.Length <= U32_MAX
      && worklistLength <= worklist.Length
      && (forall w :: 0 <= w < worklistLength ==> worklist[w] < slots.Length)
    }

    /** The live count and the allocation hint are right. */
    ghost predicate Counted()
      reads this, slots
    {
      live == CountUsed(slots[..]) && HintOk(slots[..], freeHint)
    }

    ghost predicate Valid()
      reads this, arena, slots, worklist
    {
      && Sized() && Counted()
      && match phase
         case Idle => IdleState(arena[..], slots[..], cells, used)
         case Marking =>
           && MarkingState(children, gc, arena[..], slots[..], cells, used)
           && reclaimedCells == reclaimedBytes == 0
         case Compacting =>
           && CompactingState(children, gc, arena[..], slots[..], cells, used, compactRead, compactWrite)
           && reclaimedBytes == compactRead - compactWrite
           && reclaimedCells + live == CountUsed(gc.start.slots)
    }

    /** An empty heap in storage that is lent to it. */
    constructor (arena: array<byte>, slots: array<Slot>, worklist: array<u32>, children: Tracer)
      requires arena.Length < 0xFFFF_FFF0 && slots.Length <= U32_MAX
      modifies slots
      ensures Valid() && phase == Idle && cells == [] && live == 0 && used == 0
      ensures forall i :: 0 <= i < slots.Length ==> slots[i] == EMPTY_SLOT
      ensures this.arena == arena && this.slots == slots && this.worklist == worklist && this.children == children
    {
      this.arena, this.slots, this.worklist, this.children := arena, slots, worklist, children;
      worklistLength, used, live, phase, freeHint := 0, 0, 0, Idle, 0;
      compactRead, compactWrite, reclaimedCells, reclaimedBytes := 0, 0, 0, 0;
      cells := [];
      new;
      hide CountUsed, MarkingState, CompactingState;
      var i := 0;
      while i < slots.Length
        modifies slots
        invariant 0 <= i <= slots.Length
        invariant forall j :: 0 <= j < i ==> slots[j] == EMPTY_SLOT
      {
        slots[i] := EMPTY_SLOT;
        i := i + 1;
      }
      NoneUsed(slots[..]);
    }

    // ----- allocation -----

    /** The lowest free slot. */
    method TakeSlot() returns (r: Result<u32, HeapError>)
      requires Sized() && Counted()
      modifies this`freeHint
      ensures r.Err? ==> r.error == SlotsFull && freeHint == old(freeHint)
      ensures r.Err? <==> forall i :: 0 <= i < slots.Length ==> slots[i].kind != Free
      ensures r.Ok? ==> r.value < slots.Length && slots[r.value].kind == Free && freeHint == r.value + 1
      ensures r.Ok? ==> forall i :: 0 <= i < r.value ==> slots[i].kind != Free
    {
      var count := slots.Length;
      var first := Min(freeHint, count);
      var scanned, index := 0, first;
      assert forall i :: 0 <= i < first ==> slots[..][i].kind != Free;
      while scanned < count
        invariant 0 <= scanned <= count
        invariant index == first + scanned || (first + scanned >= count && index == first + scanned - count)
        invariant 0 <= index <= count
        invariant forall i :: 0 <= i < first + scanned && i < count ==> slots[i].kind != Free
      {
        if index >= count { index := 0; }
        if slots[index].kind == Free {
          freeHint := index + 1;
          return Ok(index);
        }
        index := index + 1;
        scanned := scanned + 1;
      }
      r := Err(SlotsFull);
    }

    /** No cell of the arena names a free slot, as after any collection. */
    ghost predicate IsClean()
      reads this, slots
    {
      Clean(slots[..], cells)
    }

    method WriteAll(at: nat, bytes: seq<byte>)
      requires at + |bytes| <= arena.Length
      modifies arena
      ensures arena[..] == Written(old(arena[..]), at, bytes)
    {
      var i := 0;
      while i < |bytes|
        invariant 0 <= i <= |bytes|
        invariant forall p :: 0 <= p < arena.Length ==>
                    arena[p] == if at <= p < at + i then bytes[p - at] else old(arena[p])
      {
        arena[at + i] := bytes[i];
        i := i + 1;
      }
    }

    /** A new cell of zeros on top of the others; refused during a collection. */
    method Allocate(kind: CellKind, length: u32) returns (r: Result<Handle, HeapError>)
      requires Valid() && kind != Free
      modifies this`used, this`live, this`freeHint, this`cells, arena, slots
      ensures phase != Idle ==> r == Err(Collecting)
      ensures r.Err? ==> Valid() && cells == old(cells) && arena[..] == old(arena[..]) && slots[..] == old(slots[..])
      ensures phase == Idle ==>
                (r.Ok? <==> Align(old(used)) + CELL_HEADER + length <= arena.Length
                            && exists i :: 0 <= i < slots.Length && old(slots[i]).kind == Free)
      ensures r.Ok? ==> !Names(old(slots[..]), r.value) && Fresh(arena[..], slots[..], r.value, kind, length)
      ensures r.Ok? ==> old(slots[r.value.index]).generation == r.value.generation
                        && forall i :: 0 <= i < r.value.index ==> old(slots[i]).kind != Free
      ensures TableLater(old(slots[..]), slots[..])
      ensures r.Ok? ==> forall i :: 0 <= i < slots.Length && old(slots[i]).kind != Free ==>
                Kept(old(arena[..]), old(slots[..]), arena[..], slots[..], i)
      ensures r.Ok? ==> used == Align(old(used)) + CELL_HEADER + length
                        && cells == old(cells) + [Cell(Align(old(used)), r.value.index, length)]
      ensures r.Ok? ==> (Valid() <==> !HasCell(old(cells), r.value.index))
      ensures r.Ok? && old(IsClean()) ==> Valid() && IsClean()
    {
      hide IdleState, MarkingState, CompactingState, Kept, Clean, HintOk, CountUsed, TableLater;
      LaterItself(slots[..]);
      if phase != Idle { return Err(Collecting); }
      var header := Align(used);
      if header + CELL_HEADER + length > arena.Length { return Err(ArenaFull); }
      var index := TakeSlot();
      if index.Err? {
        HintStays(slots[..], freeHint);
        return Err(SlotsFull);
      }
      ghost var table, hint := slots[..], freeHint;
      HintMoves(table, index.value);
      var slot := Install(kind, header, length, index.value);
      InstallLater(table, index.value, slot);
      InstallKeeps(old(arena[..]), table, old(cells), old(used), Cell(header, index.value, length), slot);
      r := Ok(Handle(index.value, slot.generation));
    }

    /** Point a free slot at a new cell at the top of the arena. */
    method Install(kind: CellKind, header: nat, length: u32, index: u32) returns (slot: Slot)
      requires kind != Free && header + CELL_HEADER + length <= arena.Length < 0xFFFF_FFF0
      requires index < slots.Length && slots[index].kind == Free && live == CountUsed(slots[..])
      modifies this`used, this`live, this`cells, arena, slots
      ensures slot == Slot(header + CELL_HEADER, length, old(slots[index]).generation, kind, White)
      ensures slots[..] == old(slots[..])[index := slot]
      ensures arena[..] == Written(old(arena[..]), header, FreshBytes(index, length))
      ensures used == header + CELL_HEADER + length && cells == old(cells) + [Cell(header, index, length)]
      ensures live == CountUsed(slots[..])
    {
      hide Written, FreshBytes, CountUsed;
      slot := Slot(header + CELL_HEADER, length, slots[index].generation, kind, White);
      CountUpdated(slots[..], index, slot);
      slots[index] := slot;
      WriteAll(header, FreshBytes(index, length));
      assert slots[..] == old(slots[..])[index := slot];
      used, live, cells := header + CELL_HEADER + length, live + 1, cells + [Cell(header, index, length)];
    }

    /** How much of the arena is left: never less than nothing in an arena of whole words. */
    method FreeBytes() returns (n: int)
      requires Valid()
      ensures n == arena.Length - used && (arena.Length % 8 == 0 ==> n >= 0)
    {
      hide IdleState, MarkingState, CompactingState, CountUsed, HintOk;
      if arena.Length % 8 == 0 {
        match phase
        case Idle => IdleUsed(arena[..], slots[..], cells, used);
        case Marking => MarkingUsed(children, gc, arena[..], slots[..], cells, used);
        case Compacting => CompactingUsed(children, gc, arena[..], slots[..], cells, used, compactRead, compactWrite);
      }
      n := arena.Length - used;
    }

    /** Keep the hint at or below every free slot. */
    method NoteFree(index: nat)
      modifies this`freeHint
      ensures freeHint == Min(old(freeHint), index)
    {
      if index < freeHint { freeHint := index; }
    }

    /** Read a cell through its handle. */
    method CellOf(h: Handle) returns (r: Result<seq<byte>, HeapError>)
      requires Valid()
      ensures r.Ok? ==> Names(slots[..], h) && Inside(arena[..], slots[h.index]) && r.value == Content(arena[..], slots[h.index])
      ensures r.Ok? <==> Names(slots[..], h)
      ensures r.Err? ==> r.error == StaleHandle
    {
      hide IdleState, MarkingState, CompactingState, CountUsed, HintOk;
      if h.index >= slots.Length { return Err(StaleHandle); }
      var slot := slots[h.index];
      assert slot == slots[..][h.index];
      if slot.generation != h.generation || slot.kind == Free { return Err(StaleHandle); }
      match phase {
        case Idle => IdleInside(arena[..], slots[..], cells, used, h.index);
        case Marking => MarkingInside(children, gc, arena[..], slots[..], cells, used, h.index);
        case Compacting => CompactingInside(children, gc, arena[..], slots[..], cells, used, compactRead, compactWrite, h.index);
      }
      if slot.offset + slot.length > arena.Length { return Err(StaleHandle); }
      r := Ok(arena[slot.offset..slot.offset + slot.length]);
    }

    /** Give a slot up at once; its cell stays in the arena until a collection drops it. */
    method Retire(h: Handle) returns (r: Result<(), HeapError>)
      requires Valid()
      modifies this`live, this`freeHint, slots
      ensures r.Ok? <==> h.index < slots.Length && old(slots[h.index]).generation == h.generation
      ensures r.Err? ==> Valid() && r.error == StaleHandle && slots[..] == old(slots[..])
      ensures r.Ok? ==> slots[..] == old(slots[..])[h.index := Freed(old(slots[h.index]))]
      ensures r.Ok? && phase == Idle ==> (Valid() <==> old(Names(slots[..], h)) || old(live) == 0)
      ensures TableLater(old(slots[..]), slots[..])
    {
      hide IdleState, MarkingState, CompactingState, CountUsed, HintOk;
      if h.index >= slots.Length { return Err(StaleHandle); }
      var slot := slots[h.index];
      if slot.generation != h.generation { return Err(StaleHandle); }
      assert slot == slots[..][h.index];
      var freed := Freed(slot);
      if phase == Idle { RetireKeeps(arena[..], slots[..], cells, used, h.index, freed); }
      CountUpdated(slots[..], h.index, freed);
      ReleaseHint(slots[..], freeHint, h.index, freed);
      slots[h.index] := freed;
      assert slots[..] == old(slots[..])[h.index := freed];
      if live > 0 { live := live - 1; }
      NoteFree(h.index);
      r := Ok(());
    }

    // ----- marking -----

    /** Turn a live white cell grey, and queue it if the worklist has room. */
    method Shade(h: Handle)
      requires Sized()
      modifies this`worklistLength, slots, worklist
      ensures Sized()
      ensures slots[..] == Shaded(old(slots[..]), h)
    {
      if h.index >= slots.Length { return; }
      var slot := slots[h.index];
      assert slot == slots[..][h.index];
      if slot.generation != h.generation || slot.kind == Free { return; }
      if slot.mark != White { return; }
      slots[h.index] := slot.(mark := Grey);
      if worklistLength < worklist.Length {
        worklist[worklistLength] := h.index;
        worklistLength := worklistLength + 1;
      }
      assert slots[..] == old(slots[..])[h.index := slot.(mark := Grey)];
    }

    method ShadeAll(hs: seq<Handle>)
      requires Sized()
      modifies this`worklistLength, slots, worklist
      ensures Sized()
      ensures slots[..] == ShadedAll(old(slots[..]), hs)
    {
      hide Shaded;
      var k := 0;
      assert hs[..0] == [];
      while k < |hs|
        invariant 0 <= k <= |hs| && Sized()
        invariant slots[..] == ShadedAll(old(slots[..]), hs[..k])
      {
        assert hs[..k + 1][..k] == hs[..k] && hs[..k + 1][k] == hs[k];
        Shade(hs[k]);
        k := k + 1;
      }
      assert hs[..k] == hs;
    }

    /** Blacken some grey cell: a queued one, or else the first in the table. */
    method NextGrey() returns (h: Option<Handle>)
      requires Sized()
      modifies this`worklistLength, slots
      ensures Sized()
      ensures h.Some? ==>
                && h.value.index < slots.Length && old(slots[h.value.index]).mark == Grey
                && h.value.generation == old(slots[h.value.index]).generation
                && slots[..] == Blackened(old(slots[..]), h.value.index)
      ensures h.None? ==> slots[..] == old(slots[..]) && forall i :: 0 <= i < slots.Length ==> slots[i].mark != Grey
    {
      while worklistLength > 0
        invariant Sized() && slots[..] == old(slots[..])
      {
        worklistLength := worklistLength - 1;
        var index := worklist[worklistLength];
        if slots[index].mark == Grey {
          slots[index] := slots[index].(mark := Black);
          return Some(Handle(index, slots[index].generation));
        }
      }
      var index := 0;
      while index < slots.Length
        invariant 0 <= index <= slots.Length
        invariant Sized() && slots[..] == old(slots[..])
        invariant forall i :: 0 <= i < index ==> slots[i].mark != Grey
      {
        if slots[index].mark == Grey {
          slots[index] := slots[index].(mark := Black);
          return Some(Handle(index, slots[index].generation));
        }
        index := index + 1;
      }
      h := None;
    }

    /** Take all marks back and shade the roots. */
    method BeginCollection(roots: seq<Handle>) returns (r: Result<(), HeapError>)
      requires Valid()
      modifies this`worklistLength, this`phase, this`reclaimedCells, this`reclaimedBytes, this`gc, slots, worklist
      ensures Valid()
      ensures r.Err? <==> old(phase) != Idle
      ensures r.Err? ==> r.error == Collecting && phase == old(phase) && slots[..] == old(slots[..]) && gc == old(gc)
      ensures r.Ok? ==> slots[..] == ShadedAll(Whitened(old(slots[..])), roots)
      ensures TableLater(old(slots[..]), slots[..])
      ensures r.Ok? ==> phase == Marking && gc.roots == roots
                        && gc.start == old(Snapshot(arena[..], slots[..], cells, used))
    {
      hide Layout, Owned, MarkInvariant, CompactingState, CountUsed, HintOk, ShadedAll, Whitened, TableLater;
      LaterItself(slots[..]);
      if phase != Idle { return Err(Collecting); }
      ghost var start := Snapshot(arena[..], slots[..], cells, used);
      Whiten();
      worklistLength, phase, reclaimedCells, reclaimedBytes := 0, Marking, 0, 0;
      ShadeAll(roots);
      gc := Collection(start, roots, start, 0);
      MarksBegin(children, start, roots, slots[..], freeHint);
      r := Ok(());
    }

    method Whiten()
      modifies slots
      ensures slots[..] == Whitened(old(slots[..]))
    {
      var i := 0;
      while i < slots.Length
        invariant 0 <= i <= slots.Length
        invariant forall j :: 0 <= j < slots.Length ==>
                    slots[j] == if j < i then old(slots[j]).(mark := White) else old(slots[j])
      {
        slots[i] := slots[i].(mark := White);
        i := i + 1;
      }
    }

    /** Shade the children of one cell. */
    method Trace(h: Handle)
      requires Sized() && Names(slots[..], h) && Inside(arena[..], slots[h.index])
      modifies this`worklistLength, slots, worklist
      ensures Sized()
      ensures slots[..] == ShadedAll(old(slots[..]), children(old(slots[h.index]).kind, Content(arena[..], old(slots[h.index]))))
    {
      var slot := slots[h.index];
      ShadeAll(children(slot.kind, arena[slot.offset..slot.offset + slot.length]));
    }

    /** Visit one grey cell, if there is one. */
    method VisitGrey() returns (found: bool)
      requires Valid() && phase == Marking
      modifies this`worklistLength, slots, worklist
      ensures Valid() && TableLater(old(slots[..]), slots[..])
      ensures found ==> CountUnvisited(slots[..]) < CountUnvisited(old(slots[..]))
      ensures !found ==> slots[..] == old(slots[..]) && forall i :: 0 <= i < slots.Length ==> slots[i].mark != Grey
    {
      hide MarkInvariant, CompactingState, IdleState, CountUsed, HintOk, ShadedAll, CountUnvisited;
      ghost var before := slots[..];
      var h := NextGrey();
      if h.None? { return false; }
      VisitKeeps(children, gc, before, h.value.index);
      Trace(h.value);
      SameKinds(before, slots[..], freeHint);
      MarkingLaterThan(children, gc, before, slots[..]);
      found := true;
    }

    /** With nothing grey left, go on to moving cells. */
    method BeginCompaction()
      requires Valid()
      requires phase == Marking ==> forall i :: 0 <= i < slots.Length ==> slots[i].mark != Grey
      modifies this`phase, this`compactRead, this`compactWrite, this`gc
      ensures Valid() && phase == (if old(phase) == Marking then Compacting else old(phase))
      ensures gc.start == old(gc).start && gc.roots == old(gc).roots
      ensures old(phase) == Marking ==> compactRead == 0
    {
      hide MarkInvariant, IdleState, CompactingState, CountUsed, HintOk, WellFormed;
      if phase != Marking { return; }
      phase, compactRead, compactWrite := Compacting, 0, 0;
      gc := gc.(base := Snapshot(arena[..], slots[..], cells, used), done := 0);
      CompactionStarts(children, gc, slots[..]);
      assert CompactingState(children, gc, arena[..], slots[..], cells, used, 0, 0);
    }

    // ----- compaction -----

    /** Bytes copied in ascending order, so that overlapping ranges come out right. */
    method CopyDown(source: nat, destination: nat, total: nat)
      requires destination <= source && source + total <= arena.Length
      modifies arena
      ensures MovedDown(old(arena[..]), arena[..], source, destination, total)
    {
      var copied := 0;
      ghost var before := arena[..];
      while copied < total
        invariant 0 <= copied <= total
        invariant MovedDown(before, arena[..], source, destination, copied)
      {
        ghost var now := arena[..];
        arena[destination + copied] := arena[source + copied];
        assert arena[..] == now[destination + copied := now[source + copied]];
        OneByteMoved(before, now, source, destination, copied);
        copied := copied + 1;
      }
    }

    /** Move a survivor to the write position and point its slot there. */
    method MoveCell(index: nat, total: nat, aligned: nat)
      requires index < slots.Length && slots[index].kind != Free && Counted()
      requires compactWrite <= compactRead && compactRead + total <= arena.Length && compactWrite + CELL_HEADER <= U32_MAX
      modifies this`compactWrite, arena, slots
      ensures Counted() && compactWrite == old(compactWrite) + aligned
      ensures slots[..] == old(slots[..])[index := Settled(old(slots[index]), true, old(compactWrite) + CELL_HEADER)]
      ensures MovedDown(old(arena[..]), arena[..], compactRead, old(compactWrite), total)
    {
      hide CountUsed, HintOk;
      if compactWrite != compactRead { CopyDown(compactRead, compactWrite, total); }
      var slot := slots[index].(offset := compactWrite + CELL_HEADER);
      CountUpdated(slots[..], index, slot);
      StillHinted(slots[..], index, slot, freeHint);
      slots[index] := slot;
      assert slots[..] == old(slots[..])[index := slot];
      compactWrite := compactWrite + aligned;
    }

    /** Discard a cell, freeing its slot unless it was already free. */
    method DropCell(index: nat, aligned: nat)
      requires index < slots.Length && Counted()
      modifies this`live, this`reclaimedCells, this`reclaimedBytes, this`freeHint, slots
      ensures Counted() && reclaimedBytes == old(reclaimedBytes) + aligned
      ensures reclaimedCells + live == old(reclaimedCells) + old(live)
      ensures slots[..] == if old(slots[index]).kind != Free then old(slots[..])[index := Settled(old(slots[index]), false, 0)]
                           else old(slots[..])
    {
      hide CountUsed, HintOk;
      reclaimedBytes := reclaimedBytes + aligned;
      var slot := slots[index];
      if slot.kind == Free { return; }
      var freed := Freed(slot);
      CountUpdated(slots[..], index, freed);
      ReleaseHint(slots[..], freeHint, index, freed);
      slots[index] := freed;
      assert slots[..] == old(slots[..])[index := freed];
      live, reclaimedCells := live - 1, reclaimedCells + 1;
      NoteFree(index);
    }

    /** Read one cell at the read position and move it down or discard it. */
    method CompactCell() returns (aligned: nat)
      requires Valid() && phase == Compacting && compactRead < used
      modifies this`live, this`compactRead, this`compactWrite, this`reclaimedCells, this`reclaimedBytes,
               this`freeHint, this`gc, arena, slots
      ensures Valid() && gc == old(gc).(done := old(gc).done + 1)
      ensures aligned > 0 && compactRead == old(compactRead) + aligned
    {
      hide CompactingState, CompactInvariant, CountUsed, HintOk, Align, WriteAt, ReadAt, Survives, MarkingState, IdleState, MovedDown;
      ghost var s, n := gc.base, gc.done;
      ghost var before, table := arena[..], slots[..];
      CompactingFacts(children, gc, arena[..], slots[..], cells, used, compactRead, compactWrite);
      var index, length, survives := Examine(s, n);
      aligned := Align(CELL_HEADER + length);
      if survives {
        MoveCell(index, CELL_HEADER + length, aligned);
      } else {
        DropCell(index, aligned);
      }
      compactRead := compactRead + aligned;
      StepTaken(s, n, before, table, arena[..], slots[..], survives);
      CompactingOn(children, gc, before, table, cells, used, old(compactRead), old(compactWrite), arena[..], slots[..], compactRead, compactWrite);
      gc := gc.(done := n + 1);
    }

    /** What the header at the read position says, and whether its cell survives. */
    method Examine(ghost s: Snapshot, ghost n: nat) returns (index: nat, length: u32, survives: bool)
      requires CompactInvariant(s, n, arena[..], slots[..]) && compactRead == ReadAt(s, n) < s.used
      ensures Indexed(s) && n < |s.cells| && index == s.cells[n].index < slots.Length && length == s.cells[n].length
      ensures survives == Survives(s.slots, s.cells[n]) && slots[index] == s.slots[index] && (survives ==> slots[index].kind != Free)
      ensures compactRead == s.cells[n].header && WriteAt(s, n) <= compactRead && compactRead + CELL_HEADER + length <= arena.Length
      ensures ReadAt(s, n + 1) == compactRead + Align(CELL_HEADER + length)
      ensures WriteAt(s, n + 1) == WriteAt(s, n) + if survives then Align(CELL_HEADER + length) else 0
    {
      hide CompactInvariant, Align, WriteAt, FromLittleEndian;
      NextCell(s, n, arena[..], slots[..]);
      var header := compactRead;
      assert arena[header..header + 4] == arena[..][header..header + 4] && arena[header + 4..header + 8] == arena[..][header + 4..header + 8];
      index := FromLittleEndian(arena[header..header + 4]);
      length := FromLittleEndian(arena[header + 4..header + 8]);
      var slot := slots[index];
      assert slot == slots[..][index];
      survives := slot.kind != Free && slot.mark == Black && slot.offset == header + CELL_HEADER;
      SurvivesAsRead(s, n, slot, survives);
    }

    /** Move live cells down until at least `budget` bytes have been read or the
        compaction is finished; answers whether it is. */
    method CompactStep(budget: nat) returns (finished: bool)
      requires Valid()
      modifies this, arena, slots
      ensures Valid() && TableLater(old(slots[..]), slots[..])
      ensures gc.start == old(gc).start && gc.roots == old(gc).roots && worklistLength <= old(worklistLength)
      ensures finished ==> phase == if old(phase) == Compacting then Idle else old(phase)
      ensures !finished ==> phase == Compacting && used == old(used)
      ensures !finished && budget > 0 ==> old(compactRead) < compactRead < used
      ensures budget == 0 && old(phase) == Compacting && old(compactRead) < old(used) ==>
                !finished && compactRead == old(compactRead) && arena[..] == old(arena[..]) && slots[..] == old(slots[..])
      ensures old(phase) == Compacting && finished ==> Finished(children, gc, arena[..], slots[..], cells, used)
      ensures old(phase) == Compacting && finished ==>
                reclaimedCells + live == CountUsed(gc.start.slots) && reclaimedBytes + used == Top(gc.start.cells)
    {
      hide MarkingState, CompactingState, IdleState, CountUsed, HintOk, Finished, TableLater;
      LaterItself(slots[..]);
      if phase != Compacting { return true; }
      var moved := 0;
      while compactRead < used
        invariant Valid() && phase == Compacting && used == old(used) && worklistLength == old(worklistLength)
        invariant gc.start == old(gc).start && gc.roots == old(gc).roots
        invariant moved == compactRead - old(compactRead) >= 0
        invariant budget == 0 ==> moved == 0
        invariant moved == 0 ==> arena[..] == old(arena[..]) && slots[..] == old(slots[..])
        invariant TableLater(old(slots[..]), slots[..])
        decreases used - compactRead
      {
        if moved >= budget { return false; }
        ghost var g, bytes, table, read, write := gc, arena[..], slots[..], compactRead, compactWrite;
        var aligned := CompactCell();
        CompactingLater(children, g, bytes, table, cells, used, read, write, gc, arena[..], slots[..], compactRead, compactWrite);
        LaterStill(old(slots[..]), table, slots[..]);
        moved := moved + aligned;
      }
      CompactionEnds(children, gc, arena[..], slots[..], cells, used, compactRead, compactWrite);
      cells := Packed(gc.base, |gc.base.cells|);
      used, phase, worklistLength := compactWrite, Idle, 0;
      finished := true;
    }

    /** Do a bounded part of the collection under way. */
    method CollectSlice(budget: nat)
      requires Valid()
      modifies this, arena, slots, worklist
      ensures Valid() && TableLater(old(slots[..]), slots[..])
      ensures gc.start == old(gc).start && gc.roots == old(gc).roots
      ensures old(phase) == Idle ==> phase == Idle && arena[..] == old(arena[..]) && slots[..] == old(slots[..])
      ensures old(phase) != Idle && phase == Idle ==> Finished(children, gc, arena[..], slots[..], cells, used)
      ensures old(phase) != Idle && phase == Idle ==>
                reclaimedCells + live == CountUsed(gc.start.slots) && reclaimedBytes + used == Top(gc.start.cells)
      ensures budget > 0 && old(phase) == Marking ==>
                phase == Compacting || (phase == Marking && CountUnvisited(slots[..]) < CountUnvisited(old(slots[..])))
      ensures budget > 0 && old(phase) == Compacting ==>
                phase == Idle || (phase == Compacting && used == old(used) && old(compactRead) < compactRead < used)
      ensures budget == 0 && old(phase) == Marking ==> phase == Marking && slots[..] == old(slots[..]) && arena[..] == old(arena[..])
    {
      hide MarkingState, CompactingState, IdleState, CountUsed, HintOk, Finished, CountUnvisited, TableLater;
      LaterItself(slots[..]);
      match phase
      case Idle =>
      case Marking =>
        var visited := 0;
        while visited < budget
          invariant Valid() && phase == Marking && gc == old(gc) && arena[..] == old(arena[..]) && visited <= budget
          invariant visited == 0 ==> slots[..] == old(slots[..])
          invariant TableLater(old(slots[..]), slots[..])
          invariant visited > 0 ==> CountUnvisited(slots[..]) < CountUnvisited(old(slots[..]))
        {
          ghost var table := slots[..];
          var found := VisitGrey();
          LaterStill(old(slots[..]), table, slots[..]);
          if !found {
            BeginCompaction();
            return;
          }
          visited := visited + 1;
        }
      case Compacting =>
        var _ := CompactStep(budget);
    }

    /** A collection from start to end.  What the roots reach
        survives byte for byte, what they do not reach is gone, and the
        survivors are packed from the start of the arena in their old order. */
    method Collect(roots: seq<Handle>, budget: nat) returns (r: Result<(), HeapError>)
      requires Valid() && budget > 0
      modifies this, arena, slots, worklist
      ensures Valid()
      ensures r.Err? <==> old(phase) != Idle
      ensures r.Err? ==> arena[..] == old(arena[..]) && slots[..] == old(slots[..])
      ensures TableLater(old(slots[..]), slots[..])
      ensures r.Ok? ==> phase == Idle && IsClean()
      ensures r.Ok? ==> Collected(children, old(Snapshot(arena[..], slots[..], cells, used)), roots, arena[..], slots[..], cells, used)
      ensures r.Ok? ==> reclaimedCells + live == old(live) && reclaimedBytes + used == old(Top(cells))
    {
      hide MarkingState, CompactingState, IdleState, CountUsed, HintOk, Finished, CountUnvisited, Collected, Clean, TableLater, ShadedAll;
      r := BeginCollection(roots);
      if r.Err? { return; }
      while phase != Idle
        invariant Valid() && gc.start == old(Snapshot(arena[..], slots[..], cells, used)) && gc.roots == roots
        invariant phase == Idle ==> Finished(children, gc, arena[..], slots[..], cells, used)
        invariant TableLater(old(slots[..]), slots[..])
        invariant phase == Idle ==> reclaimedCells + live == old(live) && reclaimedBytes + used == old(Top(cells))
        decreases if phase == Marking then 2 else if phase == Compacting then 1 else 0,
                  if phase == Marking then CountUnvisited(slots[..]) else if phase == Compacting then Max(used - compactRead, 0) else 0
      {
        ghost var table := slots[..];
        CollectSlice(budget);
        LaterStill(old(slots[..]), table, slots[..]);
      }
      FinishedIsCollected(children, gc, arena[..], slots[..], cells, used);
    }
  }

  /** The failing case of stale handles: a slot in its last generation is retired, and
      the next allocation hands out the very handle that was retired. */
  method SaturatedHandleIsReused(heap: Heap, h: Handle, kind: CellKind) returns (again: Handle)
    requires heap.Valid() && heap.phase == Idle && kind != Free
    requires h == Handle(0, U32_MAX) && Names(heap.slots[..], h) && Align(heap.used) + CELL_HEADER <= heap.arena.Length
    modifies heap, heap.arena, heap.slots
    ensures again == h && Names(heap.slots[..], h)
  {
    hide Heap.Counted, IdleState, TableLater, Kept, Fresh;
    var retired := heap.Retire(h);
    assert heap.slots[..][0] == heap.slots[0];
    var r := heap.Allocate(kind, 0);
    again := r.value;
    assert Names(heap.slots[..], again) by { NamesFresh(heap.arena[..], heap.slots[..], again, kind, 0); }
  }

  /** The failing case of free space: in an arena that is not a multiple of eight, one
      cell that fills it survives a collection, and then more is in use than there is. */
  method UnalignedArenaOverflows(heap: Heap, kind: CellKind)
    requires heap.Valid() && heap.phase == Idle && heap.cells == [] && heap.used == 0 && kind != Free
    requires heap.slots.Length > 0 && heap.slots[0].kind == Free
    requires heap.arena.Length >= CELL_HEADER && heap.arena.Length % 8 != 0
    modifies heap, heap.arena, heap.slots, heap.worklist
    ensures heap.Valid() && heap.used > heap.arena.Length
  {
    hide Heap.Counted, IdleState, TableLater, Kept, Collected;
    var length: u32 := heap.arena.Length - CELL_HEADER;
    AlignUnique(0, 0);
    var r := heap.Allocate(kind, length);
    ghost var before := Snapshot(heap.arena[..], heap.slots[..], heap.cells, heap.used);
    var done := heap.Collect([r.value], 1);
    OneSurvivor(heap.children, before, r.value, length, heap.arena[..], heap.slots[..], heap.cells, heap.used);
  }

  lemma OneSurvivor(t: Tracer, before: Snapshot, h: Handle, length: u32, arena: seq<byte>, slots: seq<Slot>, cells: seq<Cell>, used: nat)
    requires before.cells == [Cell(0, h.index, length)] && Names(before.slots, h)
    requires Collected(t, before, [h], arena, slots, cells, used) && IdleState(arena, slots, cells, used)
    ensures used == Align(CELL_HEADER + length)
  {
    hide WellFormed, Layout, IsPath;
    assert h in [h];
    assert Root(before, [h], h.index);
    RootIsReachable(t, before, [h], h.index);
    assert Survived(before, arena, slots, h.index);
    assert HasCell(cells, h.index);
    var from :| InOrder(before.cells, cells, from);
    AscendingFew(from, 1);
    FirstHeader(arena, cells, used);
  }

  lemma {:induction false} AscendingFew(numbers: seq<nat>, n: nat)
    requires (forall i, j :: 0 <= i < j < |numbers| ==> numbers[i] < numbers[j]) && forall i :: 0 <= i < |numbers| ==> numbers[i] < n
    ensures |numbers| <= n
  {
    if numbers != [] { AscendingFew(numbers[..|numbers| - 1], numbers[|numbers| - 1]); }
  }

  lemma FirstHeader(arena: seq<byte>, cells: seq<Cell>, used: nat)
    requires Layout(arena, cells, used) && |cells| == 1
    ensures cells[0].header == 0
  {}

  lemma NamesFresh(arena: seq<byte>, slots: seq<Slot>, h: Handle, kind: CellKind, length: u32)
    requires Fresh(arena, slots, h, kind, length)
    ensures Names(slots, h)
  {}

  /** The storage a finished compaction leaves. */
  ghost predicate Finished(t: Tracer, g: Collection, arena: seq<byte>, slots: seq<Slot>, cells: seq<Cell>, used: nat) {
    && FullyMarked(t, g.start, g.roots, g.base) && CompactInvariant(g.base, |g.base.cells|, arena, slots)
    && cells == Packed(g.base, |g.base.cells|) && used == WriteAt(g.base, |g.base.cells|)
  }

  lemma CompactionEnds(t: Tracer, g: Collection, arena: seq<byte>, slots: seq<Slot>, cells: seq<Cell>, used: nat, read: nat, write: nat)
    requires CompactingState(t, g, arena, slots, cells, used, read, write) && read >= used
    ensures Indexed(g.base) && write <= read && read == Top(g.start.cells)
    ensures Finished(t, g, arena, slots, Packed(g.base, |g.base.cells|), write)
    ensures IdleState(arena, slots, Packed(g.base, |g.base.cells|), write)
  {
    hide WellFormed, WriteAt, Packed, CopiedCell, RepointedCell, MarkInvariant, Owned;
    var s := g.base;
    LaidOut(s, g.done);
    WriteBehindRead(s, g.done);
    assert g.done == |s.cells|;
    PackedLayout(s, |s.cells|, arena);
    PackedOwned(s, slots);
  }

  /** What a whole collection does to a heap. */
  ghost predicate Collected(t: Tracer, before: Snapshot, roots: seq<Handle>, arena: seq<byte>, slots: seq<Slot>, cells: seq<Cell>, used: nat) {
    && WellFormed(before) && |slots| == |before.slots|
    && (forall i :: 0 <= i < |slots| && Reachable(t, before, roots, i) ==> Survived(before, arena, slots, i))
    && (forall i :: 0 <= i < |slots| && !Reachable(t, before, roots, i) ==> GivenUp(before.slots[i], slots[i]))
    && PackedFromOrder(before.cells, cells)
    && Layout(arena, cells, used) && used == Top(cells)
  }

  /** The slot is free, and its generation has moved on if it was in use. */
  ghost predicate GivenUp(slot: Slot, slot': Slot) {
    slot'.kind == Free && slot'.generation == if slot.kind != Free then Min(slot.generation + 1, U32_MAX) else slot.generation
  }

  /** Slot `i` still names a cell of the same kind, with the same bytes, under the same handle. */
  ghost predicate Survived(before: Snapshot, arena: seq<byte>, slots: seq<Slot>, i: nat)
    requires i < |slots| == |before.slots|
  {
    && before.slots[i].kind != Free && slots[i].kind == before.slots[i].kind
    && slots[i].generation == before.slots[i].generation && slots[i].length == before.slots[i].length
    && Inside(before.arena, before.slots[i]) && Inside(arena, slots[i])
    && Content(arena, slots[i]) == Content(before.arena, before.slots[i])
  }

  /** The cells left are some of the cells there were, in the same order. */
  ghost predicate PackedFromOrder(before: seq<Cell>, cells: seq<Cell>) {
    exists from: seq<nat> :: InOrder(before, cells, from)
  }

  ghost predicate InOrder(before: seq<Cell>, cells: seq<Cell>, from: seq<nat>) {
    && |from| == |cells|
    && (forall j :: 0 <= j < |cells| ==>
          from[j] < |before| && cells[j].index == before[from[j]].index && cells[j].length == before[from[j]].length)
    && (forall i, j :: 0 <= i < j < |from| ==> from[i] < from[j])
  }

  lemma {:induction false} PackedInOrder(s: Snapshot, n: nat) returns (from: seq<nat>)
    requires Indexed(s) && n <= |s.cells|
    ensures InOrder(s.cells, Packed(s, n), from) && (forall j :: 0 <= j < |from| ==> from[j] < n)
  {
    if n == 0 {
      from := [];
    } else {
      from := PackedInOrder(s, n - 1);
      if Survives(s.slots, s.cells[n - 1]) { from := from + [n - 1]; }
    }
  }

  lemma FinishedIsCollected(t: Tracer, g: Collection, arena: seq<byte>, slots: seq<Slot>, cells: seq<Cell>, used: nat)
    requires Finished(t, g, arena, slots, cells, used)
    ensures Collected(t, g.start, g.roots, arena, slots, cells, used)
    ensures Clean(slots, cells)
  {
    hide WellFormed, WriteAt, Packed, CopiedCell, RepointedCell, Reachable, ShadedReachable, RootsShaded, NoWhiteChild, Layout, Owned, InOrder;
    var s := g.base;
    PackedLayout(s, |s.cells|, arena);
    PackedOwned(s, slots);
    var from := PackedInOrder(s, |s.cells|);
    assert InOrder(g.start.cells, cells, from);
    forall i | 0 <= i < |slots| && Reachable(t, g.start, g.roots, i) ensures Survived(g.start, arena, slots, i) {
      MarkingComplete(t, g.start, g.roots, s.slots, i);
      ReachableInUse(t, g.start, g.roots, i);
      BlackReadsTheSame(s, |s.cells|, arena, slots, i);
    }
    forall i | 0 <= i < |slots| && !Reachable(t, g.start, g.roots, i) ensures GivenUp(g.start.slots[i], slots[i]) {
      MarkingComplete(t, g.start, g.roots, s.slots, i);
      OthersFreed(s, arena, slots, i);
    }
  }

  /** The compactor's test is whether the cell survives. */
  lemma SurvivesAsRead(s: Snapshot, n: nat, slot: Slot, survives: bool)
    requires Indexed(s) && n < |s.cells| && slot == s.slots[s.cells[n].index]
    requires slot.kind != Free ==> slot.offset == s.cells[n].header + CELL_HEADER
    requires survives == (slot.kind != Free && slot.mark == Black && slot.offset == s.cells[n].header + CELL_HEADER)
    ensures survives == Survives(s.slots, s.cells[n])
    ensures WriteAt(s, n + 1) == WriteAt(s, n) + if survives then Align(CELL_HEADER + s.cells[n].length) else 0
  {}

  lemma StillHinted(slots: seq<Slot>, i: nat, slot: Slot, hint: nat)
    requires i < |slots| && slot.kind != Free && HintOk(slots, hint)
    ensures HintOk(slots[i := slot], hint)
  {}

  /** The arena and the table after one cell, as the methods leave them. */
  lemma StepTaken(s: Snapshot, n: nat, arena: seq<byte>, slots: seq<Slot>, arena': seq<byte>, slots': seq<Slot>, survives: bool)
    requires CompactInvariant(s, n, arena, slots) && ReadAt(s, n) < s.used
    requires Indexed(s) && n < |s.cells| && s.cells[n].index < |slots| && survives == Survives(s.slots, s.cells[n])
    requires survives ==> MovedDown(arena, arena', s.cells[n].header, WriteAt(s, n), CELL_HEADER + s.cells[n].length)
    requires !survives ==> arena' == arena
    requires var i := s.cells[n].index;
             slots' == if slots[i].kind != Free
                       then slots[i := Settled(slots[i], survives, Min(WriteAt(s, n) + CELL_HEADER, U32_MAX))] else slots
    ensures CompactInvariant(s, n + 1, arena', slots')
  {
    hide CompactInvariant, Survives, WriteAt, FromLittleEndian, Align;
    NextCell(s, n, arena, slots);
    SmallArena(s, n, arena, slots);
    CompactStepKeeps(s, n, arena, slots, arena', slots');
  }

  lemma SmallArena(s: Snapshot, n: nat, arena: seq<byte>, slots: seq<Slot>)
    requires CompactInvariant(s, n, arena, slots)
    ensures |arena| == |s.arena| < 0xFFFF_FFF0
  {}

  /** `total` bytes copied from `source` down to `destination`, and nothing else. */
  ghost predicate MovedDown(arena: seq<byte>, arena': seq<byte>, source: nat, destination: nat, total: nat) {
    && |arena'| == |arena| && source + total <= |arena| && destination <= source
    && arena'[destination..destination + total] == arena[source..source + total]
    && forall p :: 0 <= p < |arena| && !(destination <= p < destination + total) ==> arena'[p] == arena[p]
  }

  lemma OneByteMoved(before: seq<byte>, now: seq<byte>, source: nat, destination: nat, copied: nat)
    requires MovedDown(before, now, source, destination, copied) && source + copied < |before|
    ensures MovedDown(before, now[destination + copied := now[source + copied]], source, destination, copied + 1)
  {
    var after := now[destination + copied := now[source + copied]];
    assert now[source + copied] == before[source + copied];
    assert after[destination..destination + copied + 1] == now[destination..destination + copied] + [before[source + copied]];
    assert before[source..source + copied + 1] == before[source..source + copied] + [before[source + copied]];
  }

  // ----- marking facts -----

  lemma SameKinds(slots: seq<Slot>, slots': seq<Slot>, hint: nat)
    requires |slots| == |slots'| && forall i :: 0 <= i < |slots| ==> slots'[i].kind == slots[i].kind
    ensures CountUsed(slots') == CountUsed(slots) && (HintOk(slots, hint) <==> HintOk(slots', hint))
  {
    CountSame(slots, slots');
  }

  /** Where marking starts: all white, and then the roots shaded. */
  lemma MarksBegin(t: Tracer, start: Snapshot, roots: seq<Handle>, slots: seq<Slot>, hint: nat)
    requires WellFormed(start) && slots == ShadedAll(Whitened(start.slots), roots)
    ensures MarkInvariant(t, start, roots, slots) && TableLater(start.slots, slots)
    ensures CountUsed(slots) == CountUsed(start.slots) && (HintOk(start.slots, hint) <==> HintOk(slots, hint))
  {
    hide WellFormed, MarkInvariant, CountUsed, HintOk, ShadedAll;
    RootsStart(t, start, roots, Whitened(start.slots));
    ShadedAllDarker(Whitened(start.slots), roots);
    SameKinds(start.slots, slots, hint);
  }

  /** A grey cell is one the handle names, inside the arena. */
  lemma GreyFacts(t: Tracer, g: Collection, slots: seq<Slot>, i: nat)
    requires MarkInvariant(t, g.start, g.roots, slots) && i < |slots| && slots[i].mark == Grey
    ensures InUse(g.start, i) && slots[i].kind != Free && WellFormed(g.start) && OnlyMarks(g.start, slots)
    ensures slots[i].offset + slots[i].length <= |g.start.arena|
  {
    hide Reachable, WellFormed, RootsShaded, NoWhiteChild;
    ReachableInUse(t, g.start, g.roots, i);
    InsideStart(g.start, i);
  }

  /** Visiting a grey cell: the table it leaves keeps the invariant, with one
      unvisited cell fewer. */
  lemma VisitKeeps(t: Tracer, g: Collection, slots: seq<Slot>, i: nat)
    requires MarkInvariant(t, g.start, g.roots, slots) && i < |slots| && slots[i].mark == Grey
    ensures slots[i].kind != Free && slots[i].offset + slots[i].length <= |g.start.arena|
    ensures var after := ShadedAll(Blackened(slots, i), t(slots[i].kind, Content(g.start.arena, slots[i])));
            && MarkInvariant(t, g.start, g.roots, after)
            && CountUnvisited(after) < CountUnvisited(slots)
            && |after| == |slots| && forall j :: 0 <= j < |slots| ==> after[j].kind == slots[j].kind
  {
    hide MarkInvariant, ShadedAll, CountUnvisited, WellFormed;
    GreyFacts(t, g, slots, i);
    TraceKeeps(t, g.start, g.roots, slots, i);
    SameContent(t, g.start, slots, i);
    ShadedAllDarker(Blackened(slots, i), Children(t, g.start, i));
    UnvisitedDrops(slots, i);
    UnvisitedDarker(Blackened(slots, i), ShadedAll(Blackened(slots, i), Children(t, g.start, i)));
  }

  lemma InsideStart(s: Snapshot, i: nat)
    requires WellFormed(s) && i < |s.slots| && s.slots[i].kind != Free
    ensures s.slots[i].offset + s.slots[i].length <= |s.arena|
  {
    SlotInside(s.arena, s.slots, s.cells, s.used, i);
  }

  lemma SameContent(t: Tracer, s: Snapshot, slots: seq<Slot>, i: nat)
    requires WellFormed(s) && OnlyMarks(s, slots) && InUse(s, i)
    ensures slots[i].offset + slots[i].length <= |s.arena|
    ensures Children(t, s, i) == t(slots[i].kind, Content(s.arena, slots[i]))
  {
    hide WellFormed;
    InsideStart(s, i);
  }

  /** Complete marks and untouched storage are where compaction starts. */
  lemma CompactionStarts(t: Tracer, g: Collection, slots: seq<Slot>)
    requires MarkInvariant(t, g.start, g.roots, slots) && |g.start.arena| < 0xFFFF_FFF0
    requires forall i :: 0 <= i < |slots| ==> slots[i].mark != Grey
    requires g.base == Snapshot(g.start.arena, slots, g.start.cells, g.start.used) && g.done == 0
    ensures CompactingState(t, g, g.start.arena, slots, g.start.cells, g.start.used, 0, 0)
    ensures CountUsed(slots) == CountUsed(g.start.slots)
  {
    hide Layout, Reachable, ShadedReachable, RootsShaded, NoWhiteChild;
    CountSame(slots, g.start.slots);
    assert WellFormed(g.base) by {
      forall k | 0 <= k < |g.base.cells| ensures Owns(slots, g.base.cells[k]) { assert Owns(g.start.slots, g.start.cells[k]); }
      forall i | 0 <= i < |slots| && slots[i].kind != Free ensures HasCell(g.base.cells, i) {
        assert HasCell(g.start.cells, i);
      }
    }
    OwnedIndexed(g.base);
  }

  /** The table with every mark taken back. */
  function Whitened(slots: seq<Slot>): (r: seq<Slot>)
    ensures |r| == |slots|
  {
    seq(|slots|, i requires 0 <= i < |slots| => slots[i].(mark := White))
  }

  lemma CompactingFacts(t: Tracer, g: Collection, arena: seq<byte>, slots: seq<Slot>, cells: seq<Cell>, used: nat, read: nat, write: nat)
    requires CompactingState(t, g, arena, slots, cells, used, read, write)
    ensures CompactInvariant(g.base, g.done, arena, slots) && Indexed(g.base) && g.done <= |g.base.cells| && g.base.used == used
    ensures read == ReadAt(g.base, g.done) && write == WriteAt(g.base, g.done) && |arena| < 0xFFFF_FFF0
  {
    hide FullyMarked, WellFormed;
  }

  lemma CompactingOn(t: Tracer, g: Collection, arena: seq<byte>, slots: seq<Slot>, cells: seq<Cell>, used: nat, read: nat, write: nat,
                     arena': seq<byte>, slots': seq<Slot>, read': nat, write': nat)
    requires CompactingState(t, g, arena, slots, cells, used, read, write) && Indexed(g.base) && g.done < |g.base.cells|
    requires CompactInvariant(g.base, g.done + 1, arena', slots')
    requires read' == ReadAt(g.base, g.done + 1) && write' == WriteAt(g.base, g.done + 1)
    ensures CompactingState(t, g.(done := g.done + 1), arena', slots', cells, used, read', write')
  {
    hide FullyMarked, CompactInvariant;
  }

  lemma IdleUsed(arena: seq<byte>, slots: seq<Slot>, cells: seq<Cell>, used: nat)
    requires IdleState(arena, slots, cells, used) && |arena| % 8 == 0
    ensures used <= |arena|
  {
    UsedInside(arena, cells, used);
  }

  lemma MarkingUsed(t: Tracer, g: Collection, arena: seq<byte>, slots: seq<Slot>, cells: seq<Cell>, used: nat)
    requires MarkingState(t, g, arena, slots, cells, used) && |arena| % 8 == 0
    ensures used <= |arena|
  {
    hide Layout;
    UsedInside(arena, cells, used);
  }

  lemma CompactingUsed(t: Tracer, g: Collection, arena: seq<byte>, slots: seq<Slot>, cells: seq<Cell>, used: nat, read: nat, write: nat)
    requires CompactingState(t, g, arena, slots, cells, used, read, write) && |arena| % 8 == 0
    ensures used <= |arena|
  {
    hide Layout, Repointed, MarkInvariant;
    UsedInside(g.base.arena, cells, used);
  }

  lemma IdleInside(arena: seq<byte>, slots: seq<Slot>, cells: seq<Cell>, used: nat, i: nat)
    requires IdleState(arena, slots, cells, used) && i < |slots| && slots[i].kind != Free
    ensures slots[i].offset + slots[i].length <= |arena|
  {
    SlotInside(arena, slots, cells, used, i);
  }

  lemma MarkingInside(t: Tracer, g: Collection, arena: seq<byte>, slots: seq<Slot>, cells: seq<Cell>, used: nat, i: nat)
    requires MarkingState(t, g, arena, slots, cells, used) && i < |slots| && slots[i].kind != Free
    ensures slots[i].offset + slots[i].length <= |arena|
  {
    InsideStart(g.start, i);
  }

  lemma CompactingInside(t: Tracer, g: Collection, arena: seq<byte>, slots: seq<Slot>, cells: seq<Cell>, used: nat,
                         read: nat, write: nat, i: nat)
    requires CompactingState(t, g, arena, slots, cells, used, read, write) && i < |slots| && slots[i].kind != Free
    ensures slots[i].offset + slots[i].length <= |arena|
  {
    InUseInside(g.base, g.done, arena, slots, i);
  }

  /** Marking leaves kinds and generations alone. */
  lemma MarkingLater(s: Snapshot, slots: seq<Slot>, slots': seq<Slot>)
    requires OnlyMarks(s, slots) && OnlyMarks(s, slots')
    ensures TableLater(slots, slots')
  {}

  lemma MarkingLaterThan(t: Tracer, g: Collection, slots: seq<Slot>, slots': seq<Slot>)
    requires MarkInvariant(t, g.start, g.roots, slots) && MarkInvariant(t, g.start, g.roots, slots')
    ensures TableLater(slots, slots')
  {
    MarkingLater(g.start, slots, slots');
  }

  lemma CompactingLater(t: Tracer, g: Collection, arena: seq<byte>, slots: seq<Slot>, cells: seq<Cell>, used: nat, read: nat, write: nat,
                        g': Collection, arena': seq<byte>, slots': seq<Slot>, read': nat, write': nat)
    requires CompactingState(t, g, arena, slots, cells, used, read, write)
    requires CompactingState(t, g', arena', slots', cells, used, read', write') && g'.base == g.base && g.done <= g'.done
    ensures TableLater(slots, slots')
  {
    hide CompactInvariant, FullyMarked;
    CompactionLater(g.base, g.done, arena, slots, g'.done, arena', slots');
  }

  predicate Inside(arena: seq<byte>, slot: Slot) { slot.offset + slot.length <= |arena| }

  function Blackened(slots: seq<Slot>, i: nat): seq<Slot>
    requires i < |slots|
  {
    slots[i := slots[i].(mark := Black)]
  }

  lemma RetireKeeps(arena: seq<byte>, slots: seq<Slot>, cells: seq<Cell>, used: nat, i: nat, freed: Slot)
    requires IdleState(arena, slots, cells, used) && i < |slots| && freed.kind == Free
    ensures IdleState(arena, slots[i := freed], cells, used)
  {
    hide Layout;
    forall k | 0 <= k < |cells| ensures Owns(slots[i := freed], cells[k]) { assert Owns(slots, cells[k]); }
    forall j | 0 <= j < |slots| && slots[i := freed][j].kind != Free ensures HasCell(cells, j) {
      assert slots[j].kind != Free;
    }
  }

  lemma ReleaseHint(slots: seq<Slot>, hint: nat, i: nat, freed: Slot)
    requires HintOk(slots, hint) && i < |slots|
    ensures HintOk(slots[i := freed], Min(hint, i))
  {}

  /** The handle names a zeroed cell of that kind and length. */
  ghost predicate Fresh(arena: seq<byte>, slots: seq<Slot>, h: Handle, kind: CellKind, length: u32) {
    && Names(slots, h) && slots[h.index].kind == kind && slots[h.index].length == length
    && slots[h.index].offset + length <= |arena| && Content(arena, slots[h.index]) == Zeros(length)
  }

  /** Slot `i` is unchanged and its cell reads as it did. */
  ghost predicate Kept(arena: seq<byte>, slots: seq<Slot>, arena': seq<byte>, slots': seq<Slot>, i: nat)
    requires i < |slots| == |slots'| && |arena| == |arena'|
  {
    && slots'[i] == slots[i] && slots[i].offset + slots[i].length <= |arena|
    && Content(arena', slots[i]) == Content(arena, slots[i])
  }

  lemma HintMoves(slots: seq<Slot>, index: nat)
    requires index < |slots| && forall i :: 0 <= i < index ==> slots[i].kind != Free
    ensures forall slot: Slot :: slot.kind != Free ==> HintOk(slots[index := slot], index + 1)
  {}

  lemma HintStays(slots: seq<Slot>, hint: nat)
    requires HintOk(slots, hint)
    ensures (forall i :: 0 <= i < |slots| ==> slots[i].kind != Free) ==> !exists i :: 0 <= i < |slots| && slots[i].kind == Free
  {}

  /** What a new cell changes, and what it does not. */
  lemma InstallKeeps(arena: seq<byte>, slots: seq<Slot>, cells: seq<Cell>, used: nat, c: Cell, slot: Slot)
    requires IdleState(arena, slots, cells, used) && c.header == Align(used) && c.End() <= |arena|
    requires c.index < |slots| && slots[c.index].kind == Free
    requires slot.kind != Free && slot.offset == c.header + CELL_HEADER && slot.length == c.length
    ensures var arena', slots' := Written(arena, c.header, FreshBytes(c.index, c.length)), slots[c.index := slot];
            && Content(arena', slot) == Zeros(c.length)
            && (forall i :: 0 <= i < |slots| && slots[i].kind != Free ==> Kept(arena, slots, arena', slots', i))
            && (IdleState(arena', slots', cells + [c], c.End()) <==> !HasCell(cells, c.index))
            && (Clean(slots, cells) ==> !HasCell(cells, c.index) && Clean(slots', cells + [c]))
  {
    hide Layout, Owned, Clean, Written, FreshBytes, Align;
    TopIsAligned(arena, cells, used);
    AllocatedFresh(arena, c, slot);
    forall i | 0 <= i < |slots| && slots[i].kind != Free
      ensures Kept(arena, slots, Written(arena, c.header, FreshBytes(c.index, c.length)), slots[c.index := slot], i)
    {
      ContentBelow(arena, slots, cells, used, c.header, FreshBytes(c.index, c.length), i);
    }
    LayoutGrows(arena, cells, used, c);
    forall k | 0 <= k < |cells| ensures cells[k].header < c.header {
      EndsBelowTop(arena, cells, used, k);
    }
    OwnedGrows(slots, cells, c, slot);
  }

  lemma InstallLater(slots: seq<Slot>, i: nat, slot: Slot)
    requires i < |slots| && slots[i].kind == Free && slot.generation == slots[i].generation
    ensures TableLater(slots, slots[i := slot])
  {}

  lemma AllocatedFresh(arena: seq<byte>, c: Cell, slot: Slot)
    requires c.End() <= |arena| && slot.offset == c.header + CELL_HEADER && slot.length == c.length
    ensures Content(Written(arena, c.header, FreshBytes(c.index, c.length)), slot) == Zeros(c.length)
  {
    hide ToLittleEndian, Zeros;
    var bytes := FreshBytes(c.index, c.length);
    assert bytes[CELL_HEADER..] == Zeros(c.length);
    assert Content(Written(arena, c.header, bytes), slot) == bytes[CELL_HEADER..];
  }

  lemma {:induction false} NoneUsed(slots: seq<Slot>)
    requires forall i :: 0 <= i < |slots| ==> slots[i].kind == Free
    ensures CountUsed(slots) == 0
  {
    if slots != [] { NoneUsed(slots[..|slots| - 1]); }
  }
}
