/** Compaction: sliding the surviving cells down, one cell at a time. */
module HeapCompaction {
  import opened Words
  import opened HeapModel
  import opened HeapMarking

  /** A cell that survives: its slot is in use and was marked black. */
  predicate Survives(slots: seq<Slot>, c: Cell)
    requires c.index < |slots|
  {
    slots[c.index].kind != Free && slots[c.index].mark == Black
  }

  ghost predicate Indexed(s: Snapshot) { forall k :: 0 <= k < |s.cells| ==> s.cells[k].index < |s.slots| }

  /** Where the compactor writes after `n` cells. */
  ghost function WriteAt(s: Snapshot, n: nat): nat
    requires Indexed(s) && n <= |s.cells|
  {
    if n == 0 then 0
    else if Survives(s.slots, s.cells[n - 1]) then WriteAt(s, n - 1) + Align(CELL_HEADER + s.cells[n - 1].length)
    else WriteAt(s, n - 1)
  }

  /** The surviving cells among the first `n`, packed from the start in their old order. */
  ghost function Packed(s: Snapshot, n: nat): seq<Cell>
    requires Indexed(s) && n <= |s.cells|
  {
    if n == 0 then []
    else if Survives(s.slots, s.cells[n - 1])
    then Packed(s, n - 1) + [s.cells[n - 1].(header := WriteAt(s, n - 1))]
    else Packed(s, n - 1)
  }

  /** Where the compactor reads after `n` cells. */
  function ReadAt(s: Snapshot, n: nat): nat
    requires n <= |s.cells|
  {
    if n == 0 then 0 else s.cells[n - 1].Next()
  }

  /** What becomes of a slot: a survivor's points at the new place, another is freed. */
  function Settled(slot: Slot, survives: bool, offset: u32): Slot {
    if survives then slot.(offset := offset)
    else Freed(slot)
  }

  /** The arena after `n` cells: survivors are copied down, the rest ahead is as it was. */
  ghost predicate Copied(s: Snapshot, n: nat, arena: seq<byte>)
    requires Indexed(s) && n <= |s.cells|
  {
    && |arena| == |s.arena|
    && (forall p :: ReadAt(s, n) <= p < |arena| ==> arena[p] == s.arena[p])
    && (forall k :: 0 <= k < n && Survives(s.slots, s.cells[k]) ==> CopiedCell(s, k, arena))
  }

  ghost predicate CopiedCell(s: Snapshot, k: nat, arena: seq<byte>)
    requires Indexed(s) && k < |s.cells|
  {
    var c, w := s.cells[k], WriteAt(s, k);
    && c.End() <= |s.arena| && w + CELL_HEADER + c.length <= |arena|
    && arena[w..w + CELL_HEADER + c.length] == s.arena[c.header..c.End()]
  }

  /** The handle table after `n` cells. */
  ghost predicate Repointed(s: Snapshot, n: nat, slots: seq<Slot>)
    requires Indexed(s) && n <= |s.cells|
  {
    && |slots| == |s.slots|
    && (forall i :: 0 <= i < |slots| && s.slots[i].kind == Free ==> slots[i] == s.slots[i])
    && (forall k :: n <= k < |s.cells| ==> slots[s.cells[k].index] == s.slots[s.cells[k].index] || s.slots[s.cells[k].index].kind == Free)
    && (forall k :: 0 <= k < n && s.slots[s.cells[k].index].kind != Free ==> RepointedCell(s, k, slots))
  }

  ghost predicate RepointedCell(s: Snapshot, k: nat, slots: seq<Slot>)
    requires Indexed(s) && k < |s.cells| && |slots| == |s.slots|
  {
    var c := s.cells[k];
    var w := WriteAt(s, k) + CELL_HEADER;
    w < 0x1_0000_0000 && slots[c.index] == Settled(s.slots[c.index], Survives(s.slots, c), w)
  }

  /** Everything the compactor keeps between steps. */
  ghost predicate CompactInvariant(s: Snapshot, n: nat, arena: seq<byte>, slots: seq<Slot>) {
    && WellFormed(s) && Indexed(s) && |s.arena| < 0xFFFF_FFF0 && n <= |s.cells|
    && Copied(s, n, arena) && Repointed(s, n, slots)
  }

  lemma OwnedIndexed(s: Snapshot)
    requires Owned(s.slots, s.cells)
    ensures Indexed(s)
  {
    forall k | 0 <= k < |s.cells| ensures s.cells[k].index < |s.slots| { assert Owns(s.slots, s.cells[k]); }
  }

  /** Cells only ever move down. */
  lemma {:induction false} WriteBehindRead(s: Snapshot, n: nat)
    requires WellFormed(s) && Indexed(s) && n <= |s.cells|
    ensures WriteAt(s, n) <= ReadAt(s, n) && WriteAt(s, n) % 8 == 0 && ReadAt(s, n) % 8 == 0
    ensures n < |s.cells| ==> ReadAt(s, n) == s.cells[n].header
  {
    hide WellFormed, Align, CellAt, Owns, Survives;
    LaidOut(s, n);
    if n > 0 {
      WriteBehindRead(s, n - 1);
      LaidOut(s, n - 1);
      OneCellOn(WriteAt(s, n - 1), s.cells[n - 1].header, CELL_HEADER + s.cells[n - 1].length, WriteAt(s, n));
    }
  }

  lemma OneCellOn(write: nat, read: nat, length: nat, write': nat)
    requires write <= read && write % 8 == 0 && read % 8 == 0 && (write' == write || write' == write + Align(length))
    ensures write' <= read + Align(length) && write' % 8 == 0 && (read + Align(length)) % 8 == 0
  {
    hide Align;
    SumAligned(write, length);
    SumAligned(read, length);
  }

  lemma SumAligned(a: nat, length: nat)
    requires a % 8 == 0
    ensures (a + Align(length)) % 8 == 0
  {}

  /** What the layout says of the cell the compactor is about to read. */
  lemma LaidOut(s: Snapshot, n: nat)
    requires WellFormed(s) && n <= |s.cells|
    ensures n < |s.cells| ==>
              && CellAt(s.arena, s.cells[n]) && s.cells[n].header % 8 == 0
              && ReadAt(s, n) == s.cells[n].header && s.cells[n].End() <= s.used && s.cells[n].End() <= |s.arena|
              && Owns(s.slots, s.cells[n])
    ensures n == |s.cells| ==> s.used <= ReadAt(s, n)
  {
    if n < |s.cells| {
      assert CellAt(s.arena, s.cells[n]) && Owns(s.slots, s.cells[n]);
      if n < |s.cells| - 1 { HeadersAscend(s.arena, s.cells, s.used, n, |s.cells| - 1); }
    }
  }

  /** What was written stays behind the write position. */
  lemma {:induction false} WrittenBelow(s: Snapshot, k: nat, n: nat)
    requires WellFormed(s) && Indexed(s) && k < n <= |s.cells| && Survives(s.slots, s.cells[k])
    ensures WriteAt(s, k) + Align(CELL_HEADER + s.cells[k].length) <= WriteAt(s, n)
    decreases n
  {
    hide WellFormed;
    if k < n - 1 { WrittenBelow(s, k, n - 1); }
  }

  // ----- one step -----

  /** The arena with the next survivor copied down, or untouched for a dead cell. */
  ghost predicate CopyStep(s: Snapshot, n: nat, arena: seq<byte>, arena': seq<byte>)
    requires Indexed(s) && n < |s.cells|
  {
    var c, w := s.cells[n], WriteAt(s, n);
    if Survives(s.slots, c) then
      && |arena'| == |arena| && w + CELL_HEADER + c.length <= |arena| && c.End() <= |s.arena|
      && arena'[w..w + CELL_HEADER + c.length] == s.arena[c.header..c.End()]
      && (forall p :: 0 <= p < |arena| && !(w <= p < w + CELL_HEADER + c.length) ==> arena'[p] == arena[p])
    else arena' == arena
  }

  lemma CopiedStep(s: Snapshot, n: nat, arena: seq<byte>, arena': seq<byte>)
    requires WellFormed(s) && Indexed(s) && n < |s.cells| && Copied(s, n, arena) && CopyStep(s, n, arena, arena')
    ensures Copied(s, n + 1, arena')
  {
    hide WellFormed, Align, Owns, CellAt, WriteAt;
    LaidOut(s, n);
    WriteBehindRead(s, n);
    forall k | 0 <= k < n && Survives(s.slots, s.cells[k]) ensures CopiedCell(s, k, arena') {
      assert CopiedCell(s, k, arena);
      WrittenBelow(s, k, n);
      var w, length := WriteAt(s, k), CELL_HEADER + s.cells[k].length;
      assert arena'[w..w + length] == arena[w..w + length];
    }
  }

  /** The handle table with the next cell's slot settled, if it was in use. */
  ghost predicate RepointStep(s: Snapshot, n: nat, slots: seq<Slot>, slots': seq<Slot>)
    requires Indexed(s) && n < |s.cells| && |slots| == |s.slots|
  {
    var c, w := s.cells[n], WriteAt(s, n) + CELL_HEADER;
    if s.slots[c.index].kind != Free
    then w < 0x1_0000_0000 && slots' == slots[c.index := Settled(slots[c.index], Survives(s.slots, c), w)]
    else slots' == slots
  }

  lemma RepointedStep(s: Snapshot, n: nat, slots: seq<Slot>, slots': seq<Slot>)
    requires WellFormed(s) && Indexed(s) && n < |s.cells| && Repointed(s, n, slots) && RepointStep(s, n, slots, slots')
    ensures Repointed(s, n + 1, slots')
  {
    hide WellFormed, WriteAt, Layout;
    var i := s.cells[n].index;
    if s.slots[i].kind != Free {
      forall k | n < k < |s.cells| ensures s.cells[k].index != i { Distinct(s, n, k); }
      forall k | 0 <= k < n && s.slots[s.cells[k].index].kind != Free ensures s.cells[k].index != i { Distinct(s, k, n); }
      forall k | 0 <= k < n && s.slots[s.cells[k].index].kind != Free ensures RepointedCell(s, k, slots') {
        assert RepointedCell(s, k, slots);
      }
    }
  }

  lemma Distinct(s: Snapshot, i: nat, j: nat)
    requires WellFormed(s) && Indexed(s) && i < j < |s.cells| && s.slots[s.cells[i].index].kind != Free
    ensures s.cells[i].index != s.cells[j].index
  {
    DistinctOwners(s.arena, s.slots, s.cells, s.used, i, j);
  }

  // ----- the result -----

  ghost predicate SurvivorsCopied(s: Snapshot, n: nat, arena: seq<byte>)
    requires Indexed(s) && n <= |s.cells|
  {
    forall k :: 0 <= k < n && Survives(s.slots, s.cells[k]) ==> CopiedCell(s, k, arena)
  }

  /** A copied cell has its header at its new place. */
  lemma CopiedCellAt(s: Snapshot, k: nat, arena: seq<byte>)
    requires WellFormed(s) && Indexed(s) && k < |s.cells| && CopiedCell(s, k, arena)
    ensures CellAt(arena, s.cells[k].(header := WriteAt(s, k)))
  {
    hide WellFormed, WriteAt, Align, ToLittleEndian;
    LaidOut(s, k);
    WriteBehindRead(s, k);
    var c, w := s.cells[k], WriteAt(s, k);
    SliceOfSlice(arena, s.arena, w, c.header, CELL_HEADER + c.length, 0, 4);
    SliceOfSlice(arena, s.arena, w, c.header, CELL_HEADER + c.length, 4, 8);
  }

  lemma SliceOfSlice(a: seq<byte>, b: seq<byte>, i: nat, j: nat, length: nat, x: nat, y: nat)
    requires i + length <= |a| && j + length <= |b| && a[i..i + length] == b[j..j + length] && x <= y <= length
    ensures a[i + x..i + y] == b[j + x..j + y]
  {
    var u, v := a[i + x..i + y], b[j + x..j + y];
    forall p | 0 <= p < y - x ensures u[p] == v[p] {
      assert u[p] == a[i..i + length][x + p] && v[p] == b[j..j + length][x + p];
    }
  }

  /** The packed cells fill the arena up to the write position. */
  lemma {:induction false} PackedLayout(s: Snapshot, n: nat, arena: seq<byte>)
    requires WellFormed(s) && Indexed(s) && n <= |s.cells| && SurvivorsCopied(s, n, arena)
    ensures Top(Packed(s, n)) == WriteAt(s, n)
    ensures Layout(arena, Packed(s, n), WriteAt(s, n))
  {
    hide WellFormed, Align, CellAt, CopiedCell;
    if n > 0 {
      PackedLayout(s, n - 1, arena);
      if Survives(s.slots, s.cells[n - 1]) {
        assert CopiedCell(s, n - 1, arena);
        CopiedCellAt(s, n - 1, arena);
      }
    }
  }

  /** Every packed cell is a survivor at its new place. */
  lemma {:induction false} PackedFrom(s: Snapshot, n: nat, j: nat) returns (k: nat)
    requires Indexed(s) && n <= |s.cells| && j < |Packed(s, n)|
    ensures k < n && Survives(s.slots, s.cells[k]) && Packed(s, n)[j] == s.cells[k].(header := WriteAt(s, k))
  {
    if Survives(s.slots, s.cells[n - 1]) && j == |Packed(s, n - 1)| { k := n - 1; } else { k := PackedFrom(s, n - 1, j); }
  }

  /** Every survivor is packed. */
  lemma {:induction false} PackedHas(s: Snapshot, n: nat, k: nat)
    requires Indexed(s) && k < n <= |s.cells| && Survives(s.slots, s.cells[k])
    ensures HasCell(Packed(s, n), s.cells[k].index)
  {
    if k < n - 1 {
      PackedHas(s, n - 1, k);
      var j :| 0 <= j < |Packed(s, n - 1)| && Packed(s, n - 1)[j].index == s.cells[k].index;
      assert Packed(s, n)[j].index == s.cells[k].index;
    } else {
      assert Packed(s, n)[|Packed(s, n - 1)|].index == s.cells[k].index;
    }
  }

  /** When every cell has been read, the packed cells and the table agree again,
      and no cell names a free slot. */
  lemma PackedOwned(s: Snapshot, slots: seq<Slot>)
    requires WellFormed(s) && Indexed(s) && Repointed(s, |s.cells|, slots)
    ensures Owned(slots, Packed(s, |s.cells|)) && Clean(slots, Packed(s, |s.cells|))
  {
    hide WellFormed, WriteAt, Packed;
    var n := |s.cells|;
    var packed := Packed(s, n);
    forall j | 0 <= j < |packed| ensures Owns(slots, packed[j]) && slots[packed[j].index].kind != Free {
      var k := PackedFrom(s, n, j);
      assert RepointedCell(s, k, slots);
      LaidOut(s, k);
    }
    forall i | 0 <= i < |slots| && slots[i].kind != Free ensures HasCell(packed, i) {
      var k := HomeOf(s, i);
      assert RepointedCell(s, k, slots);
      PackedHas(s, n, k);
    }
  }

  lemma HomeOf(s: Snapshot, i: nat) returns (k: nat)
    requires WellFormed(s) && i < |s.slots| && s.slots[i].kind != Free
    ensures k < |s.cells| && s.cells[k].index == i
  {
    hide Layout;
    assert HasCell(s.cells, i);
    k :| 0 <= k < |s.cells| && s.cells[k].index == i;
  }

  /** At every point of a compaction, a black cell reads as it did before it began,
      whether or not it has been moved. */
  lemma BlackReadsTheSame(s: Snapshot, n: nat, arena: seq<byte>, slots: seq<Slot>, i: nat)
    requires CompactInvariant(s, n, arena, slots)
    requires i < |s.slots| && s.slots[i].kind != Free && s.slots[i].mark == Black
    ensures slots[i] == s.slots[i].(offset := slots[i].offset)
    ensures slots[i].offset + slots[i].length <= |arena| && s.slots[i].offset + s.slots[i].length <= |s.arena|
    ensures Content(arena, slots[i]) == Content(s.arena, s.slots[i])
  {
    hide WellFormed, WriteAt, CellAt, Align;
    var k := HomeOf(s, i);
    LaidOut(s, k);
    if k < n {
      assert RepointedCell(s, k, slots) && CopiedCell(s, k, arena);
      hide Repointed, Copied;
      MovedReadsTheSame(s, k, arena, slots[i]);
    } else {
      ReadAhead(s, n, k);
      SameAhead(s, n, arena, s.slots[i]);
    }
  }

  lemma MovedReadsTheSame(s: Snapshot, k: nat, arena: seq<byte>, slot: Slot)
    requires Indexed(s) && k < |s.cells| && CopiedCell(s, k, arena)
    requires slot.offset == WriteAt(s, k) + CELL_HEADER && slot.length == s.cells[k].length
    ensures slot.offset + slot.length <= |arena| && s.cells[k].End() <= |s.arena|
    ensures Content(arena, slot) == s.arena[s.cells[k].header + CELL_HEADER..s.cells[k].End()]
  {
    hide WriteAt;
    var c := s.cells[k];
    SliceOfSlice(arena, s.arena, WriteAt(s, k), c.header, CELL_HEADER + c.length, CELL_HEADER, CELL_HEADER + c.length);
  }

  lemma SameAhead(s: Snapshot, n: nat, arena: seq<byte>, slot: Slot)
    requires Indexed(s) && n <= |s.cells| && Copied(s, n, arena)
    requires ReadAt(s, n) <= slot.offset && slot.offset + slot.length <= |s.arena|
    ensures Content(arena, slot) == Content(s.arena, slot)
  {
    hide CopiedCell, Survives;
  }

  lemma ReadAhead(s: Snapshot, n: nat, k: nat)
    requires WellFormed(s) && n <= k < |s.cells|
    ensures ReadAt(s, n) <= s.cells[k].header
  {
    LaidOut(s, n);
    if n < k { HeadersAscend(s.arena, s.cells, s.used, n, k); }
  }

  /** At the end, a cell that was not black is gone and its slot free. */
  lemma OthersFreed(s: Snapshot, arena: seq<byte>, slots: seq<Slot>, i: nat)
    requires CompactInvariant(s, |s.cells|, arena, slots)
    requires i < |s.slots| && (s.slots[i].kind == Free || s.slots[i].mark != Black)
    ensures slots[i] == if s.slots[i].kind != Free then Freed(s.slots[i]) else s.slots[i]
  {
    hide WellFormed, WriteAt;
    if s.slots[i].kind != Free {
      var k := HomeOf(s, i);
      assert RepointedCell(s, k, slots);
    }
  }

  /** A slot in use points inside the arena at every point of a compaction. */
  lemma InUseInside(s: Snapshot, n: nat, arena: seq<byte>, slots: seq<Slot>, i: nat)
    requires CompactInvariant(s, n, arena, slots) && i < |slots| && slots[i].kind != Free
    ensures slots[i].offset + slots[i].length <= |arena|
  {
    hide WellFormed, WriteAt, CellAt, Align;
    var k := HomeOf(s, i);
    LaidOut(s, k);
    if s.slots[i].mark == Black { BlackReadsTheSame(s, n, arena, slots, i); }
    if k < n { assert RepointedCell(s, k, slots); }
  }

  /** As the compactor goes on, the handle table only gets later. */
  lemma CompactionLater(s: Snapshot, n: nat, arena: seq<byte>, slots: seq<Slot>, n': nat, arena': seq<byte>, slots': seq<Slot>)
    requires CompactInvariant(s, n, arena, slots) && CompactInvariant(s, n', arena', slots') && n <= n'
    ensures TableLater(slots, slots')
  {
    hide WellFormed, WriteAt, Copied;
    forall i | 0 <= i < |slots| ensures Later(slots[i], slots'[i]) {
      if s.slots[i].kind != Free {
        var k := HomeOf(s, i);
        if k < n' { assert RepointedCell(s, k, slots'); }
        if k < n { assert RepointedCell(s, k, slots); }
      }
    }
  }

  // ----- reading the next header -----

  /** What the compactor finds at its read position. */
  lemma NextCell(s: Snapshot, n: nat, arena: seq<byte>, slots: seq<Slot>)
    requires CompactInvariant(s, n, arena, slots) && ReadAt(s, n) < s.used
    ensures Indexed(s) && n < |s.cells| && ReadAt(s, n) == s.cells[n].header
    ensures var c := s.cells[n];
            && c.End() <= |arena| && WriteAt(s, n) <= c.header && c.index < |slots|
            && c.Next() == c.header + Align(CELL_HEADER + c.length) == ReadAt(s, n + 1)
            && FromLittleEndian(arena[c.header..c.header + 4]) == c.index
            && FromLittleEndian(arena[c.header + 4..c.header + 8]) == c.length
            && arena[c.header..c.End()] == s.arena[c.header..c.End()]
            && slots[c.index] == s.slots[c.index]
            && (s.slots[c.index].kind != Free ==> s.slots[c.index].offset == c.header + CELL_HEADER)
  {
    hide WellFormed, Align, WriteAt, FromLittleEndian;
    LaidOut(s, n);
    WriteBehindRead(s, n);
    var c := s.cells[n];
    assert arena[c.header..c.End()] == s.arena[c.header..c.End()];
    SliceOfSlice(arena, s.arena, c.header, c.header, CELL_HEADER + c.length, 0, 4);
    SliceOfSlice(arena, s.arena, c.header, c.header, CELL_HEADER + c.length, 4, 8);
    HeaderField(c.index);
    HeaderField(c.length);
  }

  lemma HeaderField(value: u32)
    ensures FromLittleEndian(ToLittleEndian(value, 4)) == value
  {
    LittleEndianWriteRead(value, 4);
    assert Pow256(4) == 0x1_0000_0000 by {
      assert Pow256(1) == 256 && Pow256(2) == 256 * Pow256(1) && Pow256(3) == 256 * Pow256(2);
    }
  }

  /** One cell read and dealt with. */
  lemma CompactStepKeeps(s: Snapshot, n: nat, arena: seq<byte>, slots: seq<Slot>, arena': seq<byte>, slots': seq<Slot>)
    requires CompactInvariant(s, n, arena, slots) && n < |s.cells|
    requires CopyStep(s, n, arena, arena') && RepointStep(s, n, slots, slots')
    ensures CompactInvariant(s, n + 1, arena', slots')
  {
    hide WellFormed, Copied, Repointed, CopyStep, WriteAt;
    CopiedStep(s, n, arena, arena');
    RepointedStep(s, n, slots, slots');
  }
}
