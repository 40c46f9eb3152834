/** The heap's storage as values: the handle table, the cells laid out in the
    arena, and what it means for the two to agree. */
module HeapModel {
  import opened Words

  datatype CellKind = Free | String | Symbol | BigInt | Object | Environment | PropertyTable | Elements

  datatype Mark = White | Grey | Black

  datatype Slot = Slot(offset: u32, length: u32, generation: u32, kind: CellKind, mark: Mark)

  datatype Handle = Handle(index: u32, generation: u32)

  /** A cell of the arena: where its header is, and what the header says. */
  datatype Cell = Cell(header: nat, index: u32, length: u32) {
    function End(): nat { header + CELL_HEADER + length }

    /** The multiple of eight at which the cell after this one begins. */
    function Next(): nat { header + Align(CELL_HEADER + length) }
  }

  const CELL_HEADER := 8

  function Align(n: nat): (r: nat)
    ensures n <= r < n + 8 && r % 8 == 0
  {
    (n + 7) / 8 * 8
  }

  lemma AlignUnique(n: nat, r: nat)
    requires n <= r < n + 8 && r % 8 == 0
    ensures Align(n) == r
  {}

  /** The cell's header bytes are in place and its payload inside the arena. */
  ghost predicate CellAt(arena: seq<byte>, c: Cell) {
    && c.header % 8 == 0 && c.End() <= |arena|
    && arena[c.header..c.header + 4] == ToLittleEndian(c.index, 4)
    && arena[c.header + 4..c.header + 8] == ToLittleEndian(c.length, 4)
  }

  /** Where the next allocation's header goes. */
  function Top(cells: seq<Cell>): nat { if cells == [] then 0 else cells[|cells| - 1].Next() }

  /** The cells fill the used part of the arena from its start, in order. */
  ghost predicate Layout(arena: seq<byte>, cells: seq<Cell>, used: nat) {
    && (forall k :: 0 <= k < |cells| ==> CellAt(arena, cells[k]))
    && (forall k :: 0 < k < |cells| ==> cells[k].header == cells[k - 1].Next())
    && (cells != [] ==> cells[0].header == 0 && cells[|cells| - 1].End() <= used)
    && used <= Top(cells)
  }

  lemma {:induction false} HeadersAscend(arena: seq<byte>, cells: seq<Cell>, used: nat, i: nat, j: nat)
    requires Layout(arena, cells, used) && i < j < |cells|
    ensures cells[i].Next() <= cells[j].header
    decreases j
  {
    if i < j - 1 { HeadersAscend(arena, cells, used, i, j - 1); }
  }

  /** The next header is the used length, aligned. */
  lemma TopIsAligned(arena: seq<byte>, cells: seq<Cell>, used: nat)
    requires Layout(arena, cells, used)
    ensures Align(used) == Top(cells)
  {
    if cells != [] {
      var last := cells[|cells| - 1];
      assert CellAt(arena, last);
      NextAligned(last);
      hide Align, CellAt;
      AlignUnique(used, last.Next());
    }
  }

  lemma NextAligned(c: Cell)
    requires c.header % 8 == 0
    ensures c.Next() % 8 == 0 && c.End() <= c.Next() < c.End() + 8
  {
    hide Align;
    var r := Align(CELL_HEADER + c.length);
    assert (c.header + r) % 8 == 0;
  }

  /** In an arena of whole words the cells, the last one rounded up, stay inside. */
  lemma UsedInside(arena: seq<byte>, cells: seq<Cell>, used: nat)
    requires Layout(arena, cells, used) && |arena| % 8 == 0
    ensures used <= |arena|
  {
    if cells != [] {
      var last := cells[|cells| - 1];
      assert CellAt(arena, last);
      RoundedInside(last.header, CELL_HEADER + last.length, |arena|);
    }
  }

  lemma RoundedInside(header: nat, length: nat, limit: nat)
    requires header % 8 == 0 && limit % 8 == 0 && header + length <= limit
    ensures header + Align(length) <= limit
  {}

  /** Cells and handle table agree: a slot in use is the slot of exactly one cell,
      and a cell that names a slot in use is that slot's cell. */
  ghost predicate Owned(slots: seq<Slot>, cells: seq<Cell>) {
    && (forall k :: 0 <= k < |cells| ==> Owns(slots, cells[k]))
    && (forall i :: 0 <= i < |slots| && slots[i].kind != Free ==> HasCell(cells, i))
  }

  ghost predicate Owns(slots: seq<Slot>, c: Cell) {
    && c.index < |slots|
    && (slots[c.index].kind != Free ==>
          slots[c.index].offset == c.header + CELL_HEADER && slots[c.index].length == c.length)
  }

  ghost predicate HasCell(cells: seq<Cell>, i: int) {
    exists k :: 0 <= k < |cells| && cells[k].index == i
  }

  /** No cell of the arena names a free slot. */
  ghost predicate Clean(slots: seq<Slot>, cells: seq<Cell>) {
    forall k :: 0 <= k < |cells| ==> cells[k].index < |slots| && slots[cells[k].index].kind != Free
  }

  /** Two cells of slots in use never share a slot. */
  lemma DistinctOwners(arena: seq<byte>, slots: seq<Slot>, cells: seq<Cell>, used: nat, i: nat, j: nat)
    requires Layout(arena, cells, used) && Owned(slots, cells) && i < j < |cells|
    requires slots[cells[i].index].kind != Free
    ensures cells[i].index != cells[j].index
  {
    HeadersAscend(arena, cells, used, i, j);
    assert Owns(slots, cells[i]) && Owns(slots, cells[j]);
  }

  /** Slots in use. */
  function CountUsed(slots: seq<Slot>): nat {
    if slots == [] then 0
    else CountUsed(slots[..|slots| - 1]) + if slots[|slots| - 1].kind != Free then 1 else 0
  }

  lemma {:induction false} CountUpdated(slots: seq<Slot>, i: nat, slot: Slot)
    requires i < |slots|
    ensures CountUsed(slots[i := slot]) == CountUsed(slots)
            - (if slots[i].kind != Free then 1 else 0) + (if slot.kind != Free then 1 else 0)
  {
    var last := |slots| - 1;
    if i < last {
      assert slots[i := slot][..last] == slots[..last][i := slot];
      CountUpdated(slots[..last], i, slot);
    } else {
      assert slots[i := slot][..last] == slots[..last];
    }
  }

  lemma {:induction false} CountSame(slots: seq<Slot>, slots': seq<Slot>)
    requires |slots| == |slots'| && forall i :: 0 <= i < |slots| ==> slots[i].kind == slots'[i].kind
    ensures CountUsed(slots) == CountUsed(slots')
  {
    if slots != [] { CountSame(slots[..|slots| - 1], slots'[..|slots| - 1]); }
  }

  /** No slot below the hint is free. */
  ghost predicate HintOk(slots: seq<Slot>, hint: nat) {
    forall i :: 0 <= i < hint && i < |slots| ==> slots[i].kind != Free
  }

  // ----- handles -----

  /** The handle names a cell that has not been reclaimed. */
  predicate Names(slots: seq<Slot>, h: Handle) {
    h.index < |slots| && slots[h.index].generation == h.generation && slots[h.index].kind != Free
  }

  /** The payload a slot points at. */
  function Content(arena: seq<byte>, slot: Slot): seq<byte>
    requires slot.offset + slot.length <= |arena|
  {
    arena[slot.offset..slot.offset + slot.length]
  }

  lemma SlotInside(arena: seq<byte>, slots: seq<Slot>, cells: seq<Cell>, used: nat, i: nat)
    requires Layout(arena, cells, used) && Owned(slots, cells) && i < |slots| && slots[i].kind != Free
    ensures slots[i].offset + slots[i].length <= |arena|
  {
    var k :| 0 <= k < |cells| && cells[k].index == i;
    assert Owns(slots, cells[k]) && CellAt(arena, cells[k]);
  }

  /** A slot given up: its generation moves on, as far as it can. */
  function Freed(slot: Slot): Slot { slot.(kind := Free, length := 0, generation := Min(slot.generation + 1, U32_MAX)) }

  /** What becomes of a slot in time: its generation never goes back, and within one
      generation that is not the last a slot in use stays in use. */
  predicate Later(slot: Slot, slot': Slot) {
    || slot.generation < slot'.generation
    || (slot.generation == slot'.generation && (slot'.kind == slot.kind || slot.kind == Free || slot.generation == U32_MAX))
  }

  ghost predicate TableLater(slots: seq<Slot>, slots': seq<Slot>) {
    |slots'| == |slots| && forall i :: 0 <= i < |slots| ==> Later(slots[i], slots'[i])
  }

  lemma LaterStill(a: seq<Slot>, b: seq<Slot>, c: seq<Slot>)
    requires TableLater(a, b) && TableLater(b, c)
    ensures TableLater(a, c)
  {
    forall i | 0 <= i < |a| ensures Later(a[i], c[i]) { assert Later(a[i], b[i]) && Later(b[i], c[i]); }
  }

  /** Tables of one heap, each later than the one before. */
  ghost predicate History(tables: seq<seq<Slot>>) {
    forall k :: 0 < k < |tables| ==> TableLater(tables[k - 1], tables[k])
  }

  lemma {:induction false} HistoryLater(tables: seq<seq<Slot>>, j: nat, k: nat)
    requires History(tables) && j <= k < |tables|
    ensures TableLater(tables[j], tables[k])
    decreases k
  {
    hide Later;
    if j < k {
      HistoryLater(tables, j, k - 1);
      LaterStill(tables[j], tables[k - 1], tables[k]);
    } else {
      LaterItself(tables[j]);
    }
  }

  lemma LaterItself(slots: seq<Slot>)
    ensures TableLater(slots, slots)
  {}

  /** Once the handle no longer names a cell, it never does again. */
  ghost predicate StaysStale(tables: seq<seq<Slot>>, h: Handle) {
    forall j, k :: 0 <= j <= k < |tables| && !Names(tables[j], h) ==> !Names(tables[k], h)
  }

  lemma StaleStays(tables: seq<seq<Slot>>, h: Handle)
    requires History(tables) && tables != [] && Names(tables[0], h) && h.generation != U32_MAX
    ensures StaysStale(tables, h)
  {
    hide History;
    forall j, k | 0 <= j <= k < |tables| && !Names(tables[j], h) ensures !Names(tables[k], h) {
      HistoryLater(tables, 0, j);
      HistoryLater(tables, j, k);
      assert Later(tables[0][h.index], tables[j][h.index]) && Later(tables[j][h.index], tables[k][h.index]);
    }
  }

  /** A slot whose generation is the last is given up and taken again under the same handle. */
  function Reused(slots: seq<Slot>, h: Handle): (tables: seq<seq<Slot>>)
    requires h.index < |slots|
  {
    var freed := Freed(slots[h.index]);
    [slots, slots[h.index := freed], slots[h.index := freed.(kind := slots[h.index].kind)]]
  }

  lemma SaturatedComesBack(slots: seq<Slot>, h: Handle)
    requires Names(slots, h) && h.generation == U32_MAX
    ensures var tables := Reused(slots, h);
            History(tables) && !Names(tables[1], h) && Names(tables[2], h) && !StaysStale(tables, h)
  {}

  /** A handle that stops naming a cell is stale for good, whatever the heap does
      next, exactly when its generation is not the last there is. */
  lemma StaleForGoodExactlyBelowTheLast(slots: seq<Slot>, h: Handle)
    requires Names(slots, h)
    ensures (forall tables :: tables != [] && tables[0] == slots && History(tables) ==> StaysStale(tables, h))
            <==> h.generation != U32_MAX
  {
    if h.generation == U32_MAX {
      SaturatedComesBack(slots, h);
      var tables := Reused(slots, h);
      assert tables[0] == slots && !StaysStale(tables, h);
    } else {
      forall tables | tables != [] && tables[0] == slots && History(tables) ensures StaysStale(tables, h) {
        StaleStays(tables, h);
      }
    }
  }

  // ----- allocation -----

  /** `arena` with `bytes` written at `at`. */
  function Written(arena: seq<byte>, at: nat, bytes: seq<byte>): (r: seq<byte>)
    requires at + |bytes| <= |arena|
    ensures |r| == |arena|
  {
    arena[..at] + bytes + arena[at + |bytes|..]
  }

  /** A fresh cell's bytes: the slot it belongs to, its length, and a zeroed payload. */
  function FreshBytes(index: u32, length: u32): (bytes: seq<byte>)
    ensures |bytes| == CELL_HEADER + length
  {
    ToLittleEndian(index, 4) + ToLittleEndian(length, 4) + Zeros(length)
  }

  function Zeros(n: nat): (z: seq<byte>)
    ensures |z| == n && forall i :: 0 <= i < n ==> z[i] == 0
  {
    seq(n, _ => 0)
  }

  lemma CellAtWritten(arena: seq<byte>, c: Cell)
    requires c.header % 8 == 0 && c.End() <= |arena|
    ensures CellAt(Written(arena, c.header, FreshBytes(c.index, c.length)), c)
  {
    hide ToLittleEndian, Zeros;
    var bytes := FreshBytes(c.index, c.length);
    var after := Written(arena, c.header, bytes);
    assert after[c.header..c.header + 4] == ToLittleEndian(c.index, 4);
    assert after[c.header + 4..c.header + 8] == ToLittleEndian(c.length, 4);
  }

  /** Writing past a cell leaves it alone. */
  lemma CellAtBelow(arena: seq<byte>, at: nat, bytes: seq<byte>, c: Cell)
    requires CellAt(arena, c) && at + |bytes| <= |arena| && c.End() <= at
    ensures CellAt(Written(arena, at, bytes), c)
    ensures Written(arena, at, bytes)[c.header..c.End()] == arena[c.header..c.End()]
  {
    hide ToLittleEndian;
    var after := Written(arena, at, bytes);
    assert after[c.header..c.header + 4] == arena[c.header..c.header + 4];
    assert after[c.header + 4..c.header + 8] == arena[c.header + 4..c.header + 8];
  }

  lemma {:induction false} EndsBelowTop(arena: seq<byte>, cells: seq<Cell>, used: nat, k: nat)
    requires Layout(arena, cells, used) && k < |cells|
    ensures cells[k].End() <= cells[k].Next() <= Top(cells)
  {
    var last := |cells| - 1;
    if k < last { HeadersAscend(arena, cells, used, k, last); }
  }

  /** A cell allocated at the top extends the layout. */
  lemma LayoutGrows(arena: seq<byte>, cells: seq<Cell>, used: nat, c: Cell)
    requires Layout(arena, cells, used) && c.header == Top(cells) && c.End() <= |arena|
    ensures Layout(Written(arena, c.header, FreshBytes(c.index, c.length)), cells + [c], c.End())
  {
    hide FreshBytes, Written, CellAt;
    TopIsAligned(arena, cells, used);
    CellAtWritten(arena, c);
    forall k | 0 <= k < |cells| ensures CellAt(Written(arena, c.header, FreshBytes(c.index, c.length)), cells[k]) {
      EndsBelowTop(arena, cells, used, k);
      CellAtBelow(arena, c.header, FreshBytes(c.index, c.length), cells[k]);
    }
  }

  /** Cells and table still agree after a free slot takes the new cell exactly when
      no cell of the arena named that slot: a slot retired since the last collection
      must not be reused before the next. */
  lemma OwnedGrows(slots: seq<Slot>, cells: seq<Cell>, c: Cell, slot: Slot)
    requires Owned(slots, cells) && c.index < |slots| && slots[c.index].kind == Free
    requires slot.kind != Free && slot.offset == c.header + CELL_HEADER && slot.length == c.length
    requires forall k :: 0 <= k < |cells| ==> cells[k].header < c.header
    ensures Owned(slots[c.index := slot], cells + [c]) <==> !HasCell(cells, c.index)
    ensures Clean(slots, cells) ==> !HasCell(cells, c.index) && Clean(slots[c.index := slot], cells + [c])
  {
    var slots', cells' := slots[c.index := slot], cells + [c];
    if HasCell(cells, c.index) {
      var k :| 0 <= k < |cells| && cells[k].index == c.index;
      assert cells'[k] == cells[k] && !Owns(slots', cells'[k]);
    } else {
      forall k | 0 <= k < |cells'| ensures Owns(slots', cells'[k]) {
        if k < |cells| { assert Owns(slots, cells[k]); }
      }
      forall i | 0 <= i < |slots'| && slots'[i].kind != Free ensures HasCell(cells', i) {
        if i == c.index {
          assert cells'[|cells|].index == i;
        } else {
          var k :| 0 <= k < |cells| && cells[k].index == i;
          assert cells'[k].index == i;
        }
      }
    }
  }

  /** Writing at the top leaves the content of every slot in use as it was. */
  lemma ContentBelow(arena: seq<byte>, slots: seq<Slot>, cells: seq<Cell>, used: nat, at: nat, bytes: seq<byte>, i: nat)
    requires Layout(arena, cells, used) && Owned(slots, cells) && i < |slots| && slots[i].kind != Free
    requires Top(cells) <= at && at + |bytes| <= |arena|
    ensures slots[i].offset + slots[i].length <= |arena|
    ensures Content(Written(arena, at, bytes), slots[i]) == Content(arena, slots[i])
  {
    hide CellAt;
    assert HasCell(cells, i);
    var k :| 0 <= k < |cells| && cells[k].index == i;
    assert Owns(slots, cells[k]) && CellAt(arena, cells[k]);
    EndsBelowTop(arena, cells, used, k);
    SlotInside(arena, slots, cells, used, i);
    hide Layout, Owned;
    SliceBelow(arena, at, bytes, slots[i].offset, slots[i].offset + slots[i].length);
  }

  lemma SliceBelow(arena: seq<byte>, at: nat, bytes: seq<byte>, from: nat, end: nat)
    requires from <= end <= at && at + |bytes| <= |arena|
    ensures Written(arena, at, bytes)[from..end] == arena[from..end]
  {}
}
