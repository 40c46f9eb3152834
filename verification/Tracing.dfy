/** What a cell refers to, and the chunks in which the collector reads it. */
module Tracing {
  import opened Words
  import opened HeapModel

  const CHUNK := 32

  // ----- fields -----

  /** Four bytes at `at`, or nothing when the cell ends before. */
  function Word(cell: seq<byte>, at: nat): Option<nat> {
    if at + 4 <= |cell| then Some(FromLittleEndian(cell[at..at + 4])) else None
  }

  /** A field that holds a handle, or nothing when its index is the reserved one. */
  function HandleAt(cell: seq<byte>, at: nat): Option<Handle> {
    var index, generation := Word(cell, at), Word(cell, at + 4);
    if index.None? || generation.None? then None else Some(Handle(Low(index.value), Low(generation.value)))
  }

  function Low(n: nat): u32 { n % 0x1_0000_0000 }

  function NamedAt(cell: seq<byte>, at: nat): (refs: seq<Handle>)
    ensures |refs| <= 1
  {
    var h := HandleAt(cell, at);
    if h.None? || h.value.index == U32_MAX then [] else [h.value]
  }

  /** The reference an encoded value holds, for the four tags that hold one. */
  function ValueAt(cell: seq<byte>, at: nat): (refs: seq<Handle>)
    ensures |refs| <= 1
  {
    var h := if at < |cell| then HandleAt(cell, at + 1) else None;
    if h.Some? && 4 <= cell[at] <= 7 then [h.value] else []
  }

  /** The short form keeps an object's index and the low half of its generation. */
  function ShortAt(cell: seq<byte>, at: nat): (refs: seq<Handle>)
    ensures |refs| <= 1
  {
    if at + 7 <= |cell| && cell[at] == 7 then
      [Handle(Low(FromLittleEndian(cell[at + 1..at + 5])), Low(FromLittleEndian(cell[at + 5..at + 7])))]
    else []
  }

  /** The bytes of an object reference in the short form. */
  function ShortBytes(h: Handle): (bytes: seq<byte>)
    ensures |bytes| == 7
  {
    [7] + ToLittleEndian(h.index, 4) + ToLittleEndian(h.generation, 2)
  }

  /** The short form gives back the index and the low half of the generation. */
  lemma ShortFormReads(h: Handle)
    ensures ShortAt(ShortBytes(h), 0) == [Handle(h.index, h.generation % 0x1_0000)]
  {
    hide ToLittleEndian, FromLittleEndian, Low;
    var bytes := ShortBytes(h);
    assert bytes[1..5] == ToLittleEndian(h.index, 4) && bytes[5..7] == ToLittleEndian(h.generation, 2);
    FieldsRead(h.index, h.generation);
  }

  lemma FieldsRead(index: u32, generation: u32)
    ensures Low(FromLittleEndian(ToLittleEndian(index, 4))) == index
    ensures Low(FromLittleEndian(ToLittleEndian(generation, 2))) == generation % 0x1_0000
  {
    Powers256();
    LittleEndianWriteRead(index, 4);
    LittleEndianWriteRead(generation, 2);
    hide ToLittleEndian, FromLittleEndian, Pow256;
  }

  /** A setter is still found in its record exactly when its generation fits sixteen bits. */
  lemma ShortFormKeeps(h: Handle)
    ensures ShortAt(ShortBytes(h), 0) == [h] <==> h.generation < 0x1_0000
  {
    hide ShortAt, ShortBytes;
    ShortFormReads(h);
  }

  lemma Powers256()
    ensures Pow256(4) == 0x1_0000_0000 && Pow256(2) == 0x1_0000
  {
    assert Pow256(1) == 256 && Pow256(2) == 0x1_0000 && Pow256(3) == 0x100_0000;
  }

  // ----- what each kind of cell refers to -----

  function PropertyRefs(record: seq<byte>): (refs: seq<Handle>)
    requires |record| == 32
    ensures |refs| <= 3
  {
    var key := HandleAt(record, 8);
    (if record[0] != 0 && key.Some? then [key.value] else []) + ValueAt(record, 16) + ShortAt(record, 25)
  }

  function BindingRefs(record: seq<byte>): (refs: seq<Handle>)
    requires |record| == 24
    ensures |refs| <= 2
  {
    var name := HandleAt(record, 4);
    (if name.Some? then [name.value] else []) + ValueAt(record, 12)
  }

  function ReactionRefs(record: seq<byte>): (refs: seq<Handle>)
    requires |record| == 32
    ensures |refs| <= 3
  {
    ValueAt(record, 1) + ValueAt(record, 10) + ValueAt(record, 19)
  }

  function ObjectRefs(cell: seq<byte>): (refs: seq<Handle>) {
    if |cell| < 20 then []
    else ValueAt(cell, 0) + NamedAt(cell, 12) + ValueAt(cell, 28) + NamedAt(cell, 48) + NamedAt(cell, 40)
  }

  function EnvironmentLead(cell: seq<byte>): (refs: seq<Handle>)
    ensures |refs| <= 4
  {
    ValueAt(cell, 12) + ValueAt(cell, 21) + ValueAt(cell, 32) + ValueAt(cell, 41)
  }

  /** The three cells that are a header and records of one size. */
  datatype Shape = Properties | Bindings | Reactions

  function HeaderOf(s: Shape): nat { if s.Bindings? then 56 else 8 }

  function SizeOf(s: Shape): nat { if s.Bindings? then 24 else 32 }

  function CountAt(s: Shape): nat { if s.Bindings? then 4 else 0 }

  /** The most references one record holds. */
  function WidthOf(s: Shape): nat { if s.Bindings? then 2 else 3 }

  function LeadOf(s: Shape, cell: seq<byte>): (refs: seq<Handle>)
    ensures |refs| <= 4
  {
    if s.Bindings? then EnvironmentLead(cell) else []
  }

  /** Record `i` lies in the cell. */
  predicate Readable(s: Shape, cell: seq<byte>, i: nat) { HeaderOf(s) + i * SizeOf(s) + SizeOf(s) <= |cell| }

  function RecordOf(s: Shape, cell: seq<byte>, i: nat): (refs: seq<Handle>)
    requires Readable(s, cell, i)
    ensures |refs| <= WidthOf(s)
  {
    var at := HeaderOf(s) + i * SizeOf(s);
    var record := cell[at..at + SizeOf(s)];
    match s
    case Properties => PropertyRefs(record)
    case Bindings => BindingRefs(record)
    case Reactions => ReactionRefs(record)
  }

  lemma ReadableBelow(s: Shape, cell: seq<byte>, i: nat)
    ensures i > 0 && Readable(s, cell, i) ==> Readable(s, cell, i - 1)
  {}

  /** The references before the records, then those of the first `n` records. */
  function RefsUpTo(s: Shape, cell: seq<byte>, n: nat): seq<Handle>
    requires n > 0 ==> Readable(s, cell, n - 1)
  {
    if n == 0 then LeadOf(s, cell)
    else
      ReadableBelow(s, cell, n - 1);
      RefsUpTo(s, cell, n - 1) + RecordOf(s, cell, n - 1)
  }

  lemma RefsNext(s: Shape, cell: seq<byte>, n: nat, before: seq<Handle>, so: seq<Handle>)
    requires Readable(s, cell, n) && (n > 0 ==> Readable(s, cell, n - 1)) && before + so == RefsUpTo(s, cell, n)
    ensures before + (so + RecordOf(s, cell, n)) == RefsUpTo(s, cell, n + 1)
  {
    hide RecordOf, Readable;
    assert before + (so + RecordOf(s, cell, n)) == before + so + RecordOf(s, cell, n);
  }

  /** How many of `total` records the cell really holds. */
  function Held(s: Shape, cell: seq<byte>, total: nat): (n: nat)
    ensures n > 0 ==> Readable(s, cell, n - 1)
    ensures n <= total && (n < total ==> !Readable(s, cell, n))
  {
    if total == 0 then 0
    else
      var n := Held(s, cell, total - 1);
      if n == total - 1 && Readable(s, cell, n) then total else n
  }

  /** Everything a cell of records refers to; nothing past the records it really holds. */
  function TableRefs(s: Shape, cell: seq<byte>): seq<Handle> {
    var total := Word(cell, CountAt(s));
    if total.None? then [] else RefsUpTo(s, cell, Held(s, cell, total.value))
  }

  /** Everything a cell refers to. */
  function References(kind: CellKind, cell: seq<byte>): seq<Handle> {
    match kind
    case Object => ObjectRefs(cell)
    case PropertyTable => TableRefs(Properties, cell)
    case Environment => TableRefs(Bindings, cell)
    case Elements => TableRefs(Reactions, cell)
    case _ => []
  }

  // ----- reading in chunks -----

  /** A child is dropped when the chunk is full. */
  method PushHandle(children: array<Handle>, count: nat, h: Handle) returns (count': nat)
    requires count <= children.Length
    modifies children
    ensures count' <= children.Length && count' == (if count < children.Length then count + 1 else count)
    ensures count < children.Length ==> children[..count'] == old(children[..count]) + [h]
    ensures count == children.Length ==> children[..] == old(children[..])
  {
    count' := count;
    if count < children.Length {
      children[count] := h;
      count' := count + 1;
    }
  }

  method PushAll(children: array<Handle>, count: nat, hs: seq<Handle>) returns (count': nat)
    requires count + |hs| <= children.Length
    modifies children
    ensures count' == count + |hs| && children[..count'] == old(children[..count]) + hs
  {
    count' := count;
    for i := 0 to |hs|
      invariant count' == count + i && children[..count'] == old(children[..count]) + hs[..i]
    {
      count' := PushHandle(children, count', hs[i]);
    }
  }

  /** Fill one chunk with `lead` and the references of the records from `index` on, as
      long as a whole record's references still fit. */
  method ReadChunk(s: Shape, cell: seq<byte>, total: nat, index: nat, lead: seq<Handle>, ghost before: seq<Handle>)
    returns (found: seq<Handle>, next: nat)
    requires index > 0 ==> Readable(s, cell, index - 1)
    requires |lead| <= 4 && before + lead == RefsUpTo(s, cell, index)
    ensures index <= next && (next > 0 ==> Readable(s, cell, next - 1)) && (next > index ==> next <= total)
    ensures before + found == RefsUpTo(s, cell, next)
    ensures next == index ==> index >= total || !Readable(s, cell, index)
  {
    hide Readable, RecordOf, RefsUpTo, LeadOf;
    var children := new Handle[CHUNK](_ => Handle(0, 0));
    var count := PushAll(children, 0, lead);
    next := index;
    assert children[..count] == lead;
    while next < total && count + WidthOf(s) <= children.Length && Readable(s, cell, next)
      invariant index <= next && (next > index ==> next <= total) && 0 <= count <= children.Length
      invariant next > 0 ==> Readable(s, cell, next - 1)
      invariant before + children[..count] == RefsUpTo(s, cell, next)
      invariant next == index ==> count == |lead|
      decreases total - next
    {
      var refs := RecordOf(s, cell, next);
      RefsNext(s, cell, next, before, children[..count]);
      count := PushAll(children, count, refs);
      next := next + 1;
    }
    found := children[..count];
  }

  /** Read a cell of records a chunk at a time: every reference is handed on to be
      shaded, in order, and none is dropped where a chunk fills up. */
  method TraceRecords(s: Shape, cell: seq<byte>) returns (shaded: seq<Handle>)
    ensures shaded == TableRefs(s, cell)
  {
    hide Readable, RecordOf;
    shaded := [];
    var header := Word(cell, CountAt(s));
    if header.None? { return; }
    var total, index := header.value, 0;
    var lead := LeadOf(s, cell);
    while true
      invariant 0 <= index <= total && (index > 0 ==> Readable(s, cell, index - 1))
      invariant |lead| <= 4 && shaded + lead == RefsUpTo(s, cell, index)
      decreases total - index
    {
      var found, next := ReadChunk(s, cell, total, index, lead, shaded);
      shaded := shaded + found;
      lead := [];
      if next == index {
        HeldIs(s, cell, total, index);
        return;
      }
      index := next;
    }
  }

  lemma HeldIs(s: Shape, cell: seq<byte>, total: nat, n: nat)
    requires n <= total && (n > 0 ==> Readable(s, cell, n - 1)) && (n < total ==> !Readable(s, cell, n))
    ensures Held(s, cell, total) == n
  {
    var m := Held(s, cell, total);
    hide Held;
    if m < n { ReadableDown(s, cell, m, n - 1); }
    if n < m { ReadableDown(s, cell, n, m - 1); }
  }

  lemma {:induction false} ReadableDown(s: Shape, cell: seq<byte>, i: nat, j: nat)
    requires i <= j && Readable(s, cell, j)
    ensures Readable(s, cell, i)
    decreases j
  {
    hide Readable;
    if i < j {
      ReadableBelow(s, cell, j);
      ReadableDown(s, cell, i, j - 1);
    }
  }

  /** An object cell's five references fit their own small chunk. */
  method TraceObject(cell: seq<byte>) returns (shaded: seq<Handle>)
    ensures shaded == ObjectRefs(cell)
  {
    hide ValueAt, NamedAt;
    if |cell| < 20 { return []; }
    var children := new Handle[5](_ => Handle(0, 0));
    ghost var refs := ValueAt(cell, 0);
    var count := PushAll(children, 0, ValueAt(cell, 0));
    assert children[..count] == refs;
    count := PushAll(children, count, NamedAt(cell, 12));
    refs := refs + NamedAt(cell, 12);
    assert children[..count] == refs && count <= 2;
    count := PushAll(children, count, ValueAt(cell, 28));
    refs := refs + ValueAt(cell, 28);
    assert children[..count] == refs && count <= 3;
    count := PushAll(children, count, NamedAt(cell, 48));
    refs := refs + NamedAt(cell, 48);
    assert children[..count] == refs && count <= 4;
    count := PushAll(children, count, NamedAt(cell, 40));
    shaded := children[..count];
  }
}
