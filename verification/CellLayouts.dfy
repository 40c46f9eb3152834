/** The cells the engine writes field by field, and that the collector finds in each
    the references written into its fields. */
module CellLayouts {
  import opened Words
  import H = HeapModel
  import T = Tracing
  import opened PropertyRecords

  // ----- fields of a cell -----

  /** The bytes written at a place; nothing when there is no room for them. */
  function Put(cell: seq<byte>, at: nat, bytes: seq<byte>): (r: seq<byte>)
    ensures |r| == |cell|
  {
    if at + |bytes| <= |cell| then cell[..at] + bytes + cell[at + |bytes|..] else cell
  }

  lemma PutHere(cell: seq<byte>, at: nat, bytes: seq<byte>)
    requires at + |bytes| <= |cell|
    ensures Put(cell, at, bytes)[at..at + |bytes|] == bytes
  {}

  /** A field apart from the one written stays. */
  lemma PutElsewhere(cell: seq<byte>, at: nat, bytes: seq<byte>, low: nat, high: nat)
    requires low <= high <= |cell| && (high <= at || at + |bytes| <= low)
    ensures Put(cell, at, bytes)[low..high] == cell[low..high]
  {}

  /** A handle as its index and then its generation; the reserved index for none. */
  function HandleBytes(h: Option<H.Handle>): (bytes: seq<byte>)
    ensures |bytes| == 8
  {
    match h
    case None => ToLittleEndian(U32_MAX, 4) + ToLittleEndian(0, 4)
    case Some(h) => ToLittleEndian(h.index, 4) + ToLittleEndian(h.generation, 4)
  }

  method CopyIn(cell: array<byte>, at: nat, bytes: seq<byte>)
    modifies cell
    ensures cell[..] == Put(old(cell[..]), at, bytes)
  {
    if at + |bytes| > cell.Length { return; }
    for i := 0 to |bytes|
      invariant cell[..] == old(cell[..at]) + bytes[..i] + old(cell[at + i..])
    {
      cell[at + i] := bytes[i];
    }
  }

  /** Write a value where it has room. */
  method EncodeAt(cell: array<byte>, at: nat, v: Value)
    modifies cell
    ensures cell[..] == Put(old(cell[..]), at, ValueBytes(v))
  {
    CopyIn(cell, at, ValueBytes(v));
  }

  method WriteHandleAt(cell: array<byte>, at: nat, h: Option<H.Handle>)
    modifies cell
    ensures cell[..] == Put(old(cell[..]), at, HandleBytes(h))
  {
    CopyIn(cell, at, HandleBytes(h));
  }

  method WriteWordAt(cell: array<byte>, at: nat, word: u32)
    modifies cell
    ensures cell[..] == Put(old(cell[..]), at, ToLittleEndian(word, 4))
  {
    CopyIn(cell, at, ToLittleEndian(word, 4));
  }

  method WriteByteAt(cell: array<byte>, at: nat, b: byte)
    modifies cell
    ensures cell[..] == Put(old(cell[..]), at, [b])
  {
    CopyIn(cell, at, [b]);
  }

  // ----- reading fields back -----

  /** The handle a field of handle bytes holds. */
  function Named(h: Option<H.Handle>): seq<H.Handle> {
    if h.None? || h.value.index == U32_MAX then [] else [h.value]
  }

  lemma WordFound(cell: seq<byte>, at: nat, word: u32)
    requires at + 4 <= |cell| && cell[at..at + 4] == ToLittleEndian(word, 4)
    ensures T.Word(cell, at) == Some(word as nat)
  {
    hide ToLittleEndian, FromLittleEndian;
    WordFieldReads(word);
  }

  lemma WordsFound(cell: seq<byte>, at: nat, low: u32, high: u32)
    requires at + 8 <= |cell|
    requires cell[at..at + 4] == ToLittleEndian(low, 4) && cell[at + 4..at + 8] == ToLittleEndian(high, 4)
    ensures T.HandleAt(cell, at) == Some(H.Handle(low, high))
    ensures T.NamedAt(cell, at) == Named(Some(H.Handle(low, high)))
  {
    hide ToLittleEndian, T.Word;
    WordFound(cell, at, low);
    WordFound(cell, at + 4, high);
  }

  lemma HandleFound(cell: seq<byte>, at: nat, h: Option<H.Handle>)
    requires at + 8 <= |cell| && cell[at..at + 8] == HandleBytes(h)
    ensures h.Some? ==> T.HandleAt(cell, at) == h
    ensures T.NamedAt(cell, at) == Named(h)
  {
    hide ToLittleEndian, T.HandleAt, T.NamedAt;
    assert cell[at..at + 4] == cell[at..at + 8][..4] && cell[at + 4..at + 8] == cell[at..at + 8][4..];
    if h.None? { WordsFound(cell, at, U32_MAX, 0); } else { WordsFound(cell, at, h.value.index, h.value.generation); }
  }

  /** Zero bytes are the undefined value, and the first handle there could be. */
  lemma ZeroFields()
    ensures ValueBytes(Undefined) == [0, 0, 0, 0, 0, 0, 0, 0, 0] && ToLittleEndian(0, 4) == [0, 0, 0, 0]
  {
    assert ToLittleEndian(0, 0) == [] && ToLittleEndian(0, 1) == [0] && ToLittleEndian(0, 2) == [0, 0];
    assert ToLittleEndian(0, 3) == [0, 0, 0] && ToLittleEndian(0, 4) == [0, 0, 0, 0];
    assert ToLittleEndian(0, 5) == [0, 0, 0, 0, 0] && ToLittleEndian(0, 6) == [0, 0, 0, 0, 0, 0];
    assert ToLittleEndian(0, 7) == [0, 0, 0, 0, 0, 0, 0] && ToLittleEndian(0, 8) == [0, 0, 0, 0, 0, 0, 0, 0];
  }

  // ----- objects -----

  const OBJECT_SIZE := 56

  /** The fields of an object that may hold references.  `list` and `extra` are the two
      words a promise keeps its reaction list in; every other kind uses only `extra`. */
  datatype Fields = Fields(prototype: Value, table: Option<H.Handle>, slot: Value, list: u32, extra: u32, home: Option<H.Handle>)

  ghost predicate IsObject(cell: seq<byte>, o: Fields) {
    && |cell| == OBJECT_SIZE
    && cell[0..9] == ValueBytes(o.prototype)
    && cell[12..20] == HandleBytes(o.table)
    && cell[28..37] == ValueBytes(o.slot)
    && cell[40..44] == ToLittleEndian(o.list, 4)
    && cell[44..48] == ToLittleEndian(o.extra, 4)
    && cell[48..56] == HandleBytes(o.home)
  }

  /** The collector finds in an object what its fields hold, and nothing else. */
  lemma ObjectReferences(cell: seq<byte>, o: Fields)
    requires IsObject(cell, o)
    ensures T.References(H.Object, cell) ==
            ReferenceOf(o.prototype) + Named(o.table) + ReferenceOf(o.slot) + Named(o.home) + Named(Some(H.Handle(o.list, o.extra)))
  {
    hide ToLittleEndian, ValueBytes, HandleBytes, Named, ReferenceOf, T.ValueAt, T.NamedAt, T.HandleAt;
    ValueRefs(cell, 0, o.prototype);
    HandleFound(cell, 12, o.table);
    ValueRefs(cell, 28, o.slot);
    HandleFound(cell, 48, o.home);
    WordsFound(cell, 40, o.list, o.extra);
  }

  /** Writing these bytes there changes one field, or no field that holds references. */
  ghost predicate Changes(o: Fields, at: nat, bytes: seq<byte>, o': Fields) {
    || (at == 0 && bytes == ValueBytes(o'.prototype) && o' == o.(prototype := o'.prototype))
    || (at == 12 && bytes == HandleBytes(o'.table) && o' == o.(table := o'.table))
    || (at == 28 && bytes == ValueBytes(o'.slot) && o' == o.(slot := o'.slot))
    || (at == 44 && bytes == ToLittleEndian(o'.extra, 4) && o' == o.(extra := o'.extra))
    || (at == 48 && bytes == HandleBytes(o'.home) && o' == o.(home := o'.home))
    || (o' == o && bytes != [] && ((9 <= at && at + |bytes| <= 12) || (20 <= at && at + |bytes| <= 28)))
  }

  /** One field written: the others keep what they held. */
  lemma {:induction false} ObjectPut(cell: seq<byte>, o: Fields, at: nat, bytes: seq<byte>, o': Fields)
    requires IsObject(cell, o) && at + |bytes| <= OBJECT_SIZE
    requires Changes(o, at, bytes, o')
    ensures IsObject(Put(cell, at, bytes), o')
  {
    hide ToLittleEndian, ValueBytes, HandleBytes, Put;
    PutHere(cell, at, bytes);
    if at != 0 { PutElsewhere(cell, at, bytes, 0, 9); }
    if at != 12 { PutElsewhere(cell, at, bytes, 12, 20); }
    if at != 28 { PutElsewhere(cell, at, bytes, 28, 37); }
    PutElsewhere(cell, at, bytes, 40, 44);
    if at != 44 { PutElsewhere(cell, at, bytes, 44, 48); }
    if at != 48 { PutElsewhere(cell, at, bytes, 48, 56); }
  }

  /** A reaction list is a handle over both words. */
  lemma ObjectPutList(cell: seq<byte>, o: Fields, h: Option<H.Handle>)
    requires IsObject(cell, o)
    ensures IsObject(Put(cell, 40, HandleBytes(h)), WithList(o, h))
  {
    hide ToLittleEndian, ValueBytes, Put;
    PutHere(cell, 40, HandleBytes(h));
    var cell' := Put(cell, 40, HandleBytes(h));
    assert cell'[40..44] == cell'[40..48][..4] && cell'[44..48] == cell'[40..48][4..];
    hide HandleBytes;
    PutElsewhere(cell, 40, HandleBytes(h), 0, 9);
    PutElsewhere(cell, 40, HandleBytes(h), 12, 20);
    PutElsewhere(cell, 40, HandleBytes(h), 28, 37);
    PutElsewhere(cell, 40, HandleBytes(h), 48, 56);
  }

  function WithList(o: Fields, h: Option<H.Handle>): Fields {
    if h.None? then o.(list := U32_MAX, extra := 0) else o.(list := h.value.index, extra := h.value.generation)
  }

  /** A cell the heap has just handed out. */
  predicate Blank(cell: seq<byte>) { forall i :: 0 <= i < |cell| ==> cell[i] == 0 }

  function Plain(prototype: Value): Fields { Fields(prototype, None, Undefined, 0, 0, None) }

  /** Before anything is written, the two handle fields read as the first slot's. */
  function Unwritten(): Fields { Fields(Undefined, Some(H.Handle(0, 0)), Undefined, 0, 0, Some(H.Handle(0, 0))) }

  lemma BlankObject(cell: seq<byte>)
    requires |cell| == OBJECT_SIZE && Blank(cell)
    ensures IsObject(cell, Unwritten())
  {
    ZeroFields();
    hide ToLittleEndian, ValueBytes;
  }

  /** A new ordinary object: a prototype, no table and no home. */
  method CreateObject(cell: array<byte>, prototype: Value)
    requires cell.Length == OBJECT_SIZE && Blank(cell[..])
    modifies cell
    ensures IsObject(cell[..], Plain(prototype))
  {
    hide ValueBytes, HandleBytes, IsObject, Put;
    BlankObject(cell[..]);
    ghost var o := Unwritten().(prototype := prototype);
    ObjectPut(cell[..], Unwritten(), 0, ValueBytes(prototype), o);
    EncodeAt(cell, 0, prototype);
    ObjectPut(cell[..], o, 9, [1], o);
    WriteByteAt(cell, 9, 1);
    ObjectPut(cell[..], o, 12, HandleBytes(None), o.(table := None));
    WriteHandleAt(cell, 12, None);
    ObjectPut(cell[..], o.(table := None), 20, [0], o.(table := None));
    WriteByteAt(cell, 20, 0);
    ObjectPut(cell[..], o.(table := None), 48, HandleBytes(None), Plain(prototype));
    WriteHandleAt(cell, 48, None);
  }

  /** A function of a module: its code, the environment it closed over. */
  method CreateFunction(cell: array<byte>, prototype: Value, code: u32, environment: Value, flags: byte, owner: u32)
    requires cell.Length == OBJECT_SIZE && Blank(cell[..])
    modifies cell
    ensures IsObject(cell[..], Plain(prototype).(slot := environment, extra := owner))
  {
    hide ValueBytes, HandleBytes, IsObject, Put, ToLittleEndian;
    CreateObject(cell, prototype);
    ghost var o := Plain(prototype);
    ObjectPut(cell[..], o, 20, [1], o);
    WriteByteAt(cell, 20, 1);
    ObjectPut(cell[..], o, 21, [flags], o);
    WriteByteAt(cell, 21, flags);
    ObjectPut(cell[..], o, 24, ToLittleEndian(code, 4), o);
    WriteWordAt(cell, 24, code);
    ObjectPut(cell[..], o, 28, ValueBytes(environment), o.(slot := environment));
    EncodeAt(cell, 28, environment);
    ObjectPut(cell[..], o.(slot := environment), 44, ToLittleEndian(owner, 4), o.(slot := environment, extra := owner));
    WriteWordAt(cell, 44, owner);
  }

  /** Note the home object of a method, where its super looks. */
  method SetHome(cell: array<byte>, home: H.Handle, ghost o: Fields)
    requires IsObject(cell[..], o)
    modifies cell
    ensures IsObject(cell[..], o.(home := Some(home)))
  {
    hide HandleBytes, IsObject, Put;
    ObjectPut(cell[..], o, 48, HandleBytes(Some(home)), o.(home := Some(home)));
    WriteHandleAt(cell, 48, Some(home));
  }

  method SetTable(cell: array<byte>, table: H.Handle, ghost o: Fields)
    requires IsObject(cell[..], o)
    modifies cell
    ensures IsObject(cell[..], o.(table := Some(table)))
  {
    hide HandleBytes, IsObject, Put;
    ObjectPut(cell[..], o, 12, HandleBytes(Some(table)), o.(table := Some(table)));
    WriteHandleAt(cell, 12, Some(table));
  }

  /** The value an object's kind keeps in its slot. */
  method SetSlot(cell: array<byte>, v: Value, ghost o: Fields)
    requires IsObject(cell[..], o)
    modifies cell
    ensures IsObject(cell[..], o.(slot := v))
  {
    hide ValueBytes, IsObject, Put;
    ObjectPut(cell[..], o, 28, ValueBytes(v), o.(slot := v));
    EncodeAt(cell, 28, v);
  }

  /** Make an object a promise that nothing waits on yet. */
  method MakePromise(cell: array<byte>, ghost o: Fields)
    requires IsObject(cell[..], o)
    modifies cell
    ensures IsObject(cell[..], WithList(o.(slot := Undefined), None))
  {
    hide ValueBytes, HandleBytes, IsObject, Put;
    ObjectPut(cell[..], o, 20, [3], o);
    WriteByteAt(cell, 20, 3);
    ObjectPut(cell[..], o, 21, [0], o);
    WriteByteAt(cell, 21, 0);
    SetSlot(cell, Undefined, o);
    ObjectPutList(cell[..], o.(slot := Undefined), None);
    WriteHandleAt(cell, 40, None);
  }

  method SetReactions(cell: array<byte>, reactions: H.Handle, ghost o: Fields)
    requires IsObject(cell[..], o)
    modifies cell
    ensures IsObject(cell[..], WithList(o, Some(reactions)))
  {
    hide HandleBytes, IsObject, Put;
    ObjectPutList(cell[..], o, Some(reactions));
    WriteHandleAt(cell, 40, Some(reactions));
  }

  /** What an object that is no promise refers to. */
  ghost predicate OwnReference(o: Fields, h: H.Handle) {
    h in ReferenceOf(o.prototype) || h in Named(o.table) || h in ReferenceOf(o.slot) || h in Named(o.home)
  }

  /** The words of the reaction list are read as a handle in every object.  The
      collector finds nothing that was not stored as a reference exactly when the first
      of them is the reserved index, or what they spell is a reference of the object
      anyway. */
  lemma NothingElseExactly(cell: seq<byte>, o: Fields)
    requires IsObject(cell, o)
    ensures (forall h :: h in T.References(H.Object, cell) ==> OwnReference(o, h))
            <==> o.list == U32_MAX || OwnReference(o, H.Handle(o.list, o.extra))
    ensures forall h :: OwnReference(o, h) ==> h in T.References(H.Object, cell)
  {
    hide IsObject, T.References, ReferenceOf;
    ObjectReferences(cell, o);
    var refs, spelt := T.References(H.Object, cell), H.Handle(o.list, o.extra);
    forall h ensures h in refs <==> OwnReference(o, h) || h in Named(Some(spelt)) {}
    if o.list != U32_MAX { assert spelt in refs; }
  }

  /** A function's module number is taken for the generation of a reference to the first slot. */
  lemma ModuleReadsAsReference(cell: seq<byte>, prototype: Value, environment: Value, owner: u32)
    requires IsObject(cell, Plain(prototype).(slot := environment, extra := owner))
    ensures H.Handle(0, owner) in T.References(H.Object, cell)
  {
    hide IsObject, T.References;
    ObjectReferences(cell, Plain(prototype).(slot := environment, extra := owner));
  }

  // ----- records after a header -----

  function Flat(parts: seq<seq<H.Handle>>): seq<H.Handle> {
    if parts == [] then [] else Flat(parts[..|parts| - 1]) + parts[|parts| - 1]
  }

  /** A cell of records refers to what each record does, in order. */
  lemma {:induction false} RecordsReferences(s: T.Shape, cell: seq<byte>, parts: seq<seq<H.Handle>>)
    requires T.HeaderOf(s) + |parts| * T.SizeOf(s) <= |cell|
    requires forall i :: 0 <= i < |parts| ==> T.Readable(s, cell, i) && T.RecordOf(s, cell, i) == parts[i]
    ensures |parts| > 0 ==> T.Readable(s, cell, |parts| - 1)
    ensures T.RefsUpTo(s, cell, |parts|) == T.LeadOf(s, cell) + Flat(parts)
    decreases |parts|
  {
    hide T.Readable, T.RecordOf, T.LeadOf;
    if |parts| > 0 {
      Fewer(|parts|, T.SizeOf(s));
      RecordsReferences(s, cell, parts[..|parts| - 1]);
    }
  }

  lemma Fewer(n: nat, size: nat)
    requires n > 0
    ensures (n - 1) * size <= n * size
  {
    assert n * size == (n - 1) * size + size;
  }

  lemma WithinRecords(s: T.Shape, cell: seq<byte>, n: nat, i: nat)
    requires i < n && T.HeaderOf(s) + n * T.SizeOf(s) <= |cell|
    ensures T.Readable(s, cell, i)
  {
    var size := T.SizeOf(s);
    assert n * size == i * size + size + (n - i - 1) * size;
  }

  lemma TableReferences(s: T.Shape, cell: seq<byte>, parts: seq<seq<H.Handle>>)
    requires T.HeaderOf(s) + |parts| * T.SizeOf(s) <= |cell| && |parts| <= U32_MAX
    requires T.CountAt(s) + 4 <= |cell| && cell[T.CountAt(s)..T.CountAt(s) + 4] == ToLittleEndian(|parts|, 4)
    requires forall i :: 0 <= i < |parts| ==> T.Readable(s, cell, i) && T.RecordOf(s, cell, i) == parts[i]
    ensures T.TableRefs(s, cell) == T.LeadOf(s, cell) + Flat(parts)
  {
    hide T.Readable, T.RecordOf, T.LeadOf, T.RefsUpTo, ToLittleEndian, T.Word;
    WordFound(cell, T.CountAt(s), |parts|);
    RecordsReferences(s, cell, parts);
    T.HeldIs(s, cell, |parts|, |parts|);
  }

  // ----- property tables -----

  /** A table's records, each written over whatever lay there. */
  ghost predicate IsTable(cell: seq<byte>, records: seq<Record>) {
    && |records| <= U32_MAX && 8 + |records| * 32 <= |cell|
    && cell[0..4] == ToLittleEndian(|records|, 4)
    && forall i :: 0 <= i < |records| ==> RecordLies(cell, i, records[i])
  }

  ghost predicate RecordLies(cell: seq<byte>, i: nat, r: Record) {
    && 8 + i * 32 + 32 <= |cell|
    && exists before: seq<byte> :: |before| == RECORD && cell[8 + i * 32..8 + i * 32 + 32] == RecordBytes(before, r.key, r.descriptor)
  }

  /** What a property keeps alive: its key unless an index, and what its record gives back. */
  function PropertyReferences(r: Record): seq<H.Handle> {
    (if r.key.Index? then [] else [r.key.handle])
    + ReferenceOf(First(Stored(r.descriptor))) + ReferenceOf(Second(Stored(r.descriptor)))
  }

  /** The collector finds in a property table what its records hold, and nothing else. */
  lemma PropertyTableReferences(cell: seq<byte>, records: seq<Record>)
    requires IsTable(cell, records)
    ensures T.References(H.PropertyTable, cell) ==
            Flat(seq(|records|, i requires 0 <= i < |records| => PropertyReferences(records[i])))
  {
    hide ToLittleEndian, PropertyReferences, T.PropertyRefs, RecordBytes, T.Readable;
    var parts := seq(|records|, i requires 0 <= i < |records| => PropertyReferences(records[i]));
    forall i | 0 <= i < |parts|
      ensures T.Readable(T.Properties, cell, i) && T.RecordOf(T.Properties, cell, i) == parts[i]
    {
      WithinRecords(T.Properties, cell, |parts|, i);
      PropertyFound(cell, i, records[i]);
    }
    hide T.RecordOf, RecordLies;
    TableReferences(T.Properties, cell, parts);
  }

  lemma PropertyFound(cell: seq<byte>, i: nat, r: Record)
    requires RecordLies(cell, i, r) && T.Readable(T.Properties, cell, i)
    ensures T.RecordOf(T.Properties, cell, i) == PropertyReferences(r)
  {
    hide T.PropertyRefs, RecordBytes, Stored, ReferenceOf;
    var before: seq<byte> :| |before| == RECORD && cell[8 + i * 32..8 + i * 32 + 32] == RecordBytes(before, r.key, r.descriptor);
    RecordRefs(before, r.key, r.descriptor);
  }

  // ----- environments -----

  datatype Binding = Binding(name: H.Handle, value: Value)

  /** An environment: its parent, what a call brought with it, and its bindings. */
  datatype Scope = Scope(parent: Value, receiver: Value, newTarget: Value, callee: Value, capacity: u32, bindings: seq<Binding>)

  ghost predicate IsScope(cell: seq<byte>, e: Scope) {
    && |e.bindings| <= e.capacity && 56 + e.capacity * 24 <= |cell|
    && cell[4..8] == ToLittleEndian(|e.bindings|, 4)
    && cell[8..12] == ToLittleEndian(e.capacity, 4)
    && cell[12..21] == ValueBytes(e.parent)
    && cell[21..30] == ValueBytes(e.receiver)
    && cell[32..41] == ValueBytes(e.newTarget)
    && cell[41..50] == ValueBytes(e.callee)
    && forall i :: 0 <= i < |e.bindings| ==> BindingLies(cell, i, e.bindings[i])
  }

  ghost predicate BindingLies(cell: seq<byte>, i: nat, b: Binding) {
    var at := 56 + i * 24;
    && at + 24 <= |cell|
    && cell[at + 4..at + 12] == HandleBytes(Some(b.name))
    && cell[at + 12..at + 21] == ValueBytes(b.value)
  }

  function BindingReferences(b: Binding): seq<H.Handle> { [b.name] + ReferenceOf(b.value) }

  lemma BindingFound(cell: seq<byte>, i: nat, b: Binding)
    requires BindingLies(cell, i, b) && T.Readable(T.Bindings, cell, i)
    ensures T.RecordOf(T.Bindings, cell, i) == BindingReferences(b)
  {
    hide T.HandleAt, T.ValueAt, HandleBytes, ValueBytes, ReferenceOf, Named;
    var at := 56 + i * 24;
    var record := cell[at..at + 24];
    SliceOfSlice(cell, at, 24, 4, 12);
    SliceOfSlice(cell, at, 24, 12, 21);
    HandleFound(record, 4, Some(b.name));
    ValueRefs(record, 12, b.value);
  }

  /** The collector finds in an environment its parent, the values a call brought, and
      each binding's name and value, and nothing else. */
  lemma EnvironmentReferences(cell: seq<byte>, e: Scope)
    requires IsScope(cell, e)
    ensures T.References(H.Environment, cell) ==
            ReferenceOf(e.parent) + ReferenceOf(e.receiver) + ReferenceOf(e.newTarget) + ReferenceOf(e.callee)
            + Flat(seq(|e.bindings|, i requires 0 <= i < |e.bindings| => BindingReferences(e.bindings[i])))
  {
    hide ToLittleEndian, BindingReferences, T.BindingRefs, T.Readable, ValueBytes, HandleBytes, ReferenceOf, T.ValueAt;
    var parts := seq(|e.bindings|, i requires 0 <= i < |e.bindings| => BindingReferences(e.bindings[i]));
    forall i | 0 <= i < |parts|
      ensures T.Readable(T.Bindings, cell, i) && T.RecordOf(T.Bindings, cell, i) == parts[i]
    {
      WithinRecords(T.Bindings, cell, |parts|, i);
      BindingFound(cell, i, e.bindings[i]);
    }
    ValueRefs(cell, 12, e.parent);
    ValueRefs(cell, 21, e.receiver);
    ValueRefs(cell, 32, e.newTarget);
    ValueRefs(cell, 41, e.callee);
    hide T.RecordOf, BindingLies;
    TableReferences(T.Bindings, cell, parts);
  }

  /** Writing outside the bindings in use keeps them. */
  lemma BindingsApart(cell: seq<byte>, bindings: seq<Binding>, at: nat, bytes: seq<byte>)
    requires forall i :: 0 <= i < |bindings| ==> BindingLies(cell, i, bindings[i])
    requires at + |bytes| <= 56 || 56 + |bindings| * 24 <= at
    ensures forall i :: 0 <= i < |bindings| ==> BindingLies(Put(cell, at, bytes), i, bindings[i])
  {
    hide HandleBytes, ValueBytes, Put;
    forall i | 0 <= i < |bindings| ensures BindingLies(Put(cell, at, bytes), i, bindings[i]) {
      BindingApart(cell, i, bindings[i], at, bytes);
    }
  }

  lemma BindingApart(cell: seq<byte>, i: nat, b: Binding, at: nat, bytes: seq<byte>)
    requires BindingLies(cell, i, b) && (at + |bytes| <= 56 + i * 24 + 4 || 56 + i * 24 + 21 <= at)
    ensures BindingLies(Put(cell, at, bytes), i, b)
  {
    hide HandleBytes, ValueBytes, Put;
    var r := 56 + i * 24;
    PutElsewhere(cell, at, bytes, r + 4, r + 12);
    PutElsewhere(cell, at, bytes, r + 12, r + 21);
  }

  ghost predicate ScopeChanges(e: Scope, at: nat, bytes: seq<byte>, e': Scope) {
    || (at == 12 && bytes == ValueBytes(e'.parent) && e' == e.(parent := e'.parent))
    || (at == 21 && bytes == ValueBytes(e'.receiver) && e' == e.(receiver := e'.receiver))
    || (at == 32 && bytes == ValueBytes(e'.newTarget) && e' == e.(newTarget := e'.newTarget))
    || (at == 41 && bytes == ValueBytes(e'.callee) && e' == e.(callee := e'.callee))
    || (e' == e && |bytes| == 1 && (at == 0 || at == 30))
    || (e' == e && 56 + |e.bindings| * 24 <= at)
  }

  /** One field written: the others and the bindings keep what they held. */
  lemma ScopePut(cell: seq<byte>, e: Scope, at: nat, bytes: seq<byte>, e': Scope)
    requires IsScope(cell, e) && at + |bytes| <= |cell| && ScopeChanges(e, at, bytes, e')
    ensures IsScope(Put(cell, at, bytes), e')
  {
    hide ToLittleEndian, ValueBytes, HandleBytes, Put, BindingLies;
    PutHere(cell, at, bytes);
    PutElsewhere(cell, at, bytes, 4, 8);
    PutElsewhere(cell, at, bytes, 8, 12);
    if at != 12 { PutElsewhere(cell, at, bytes, 12, 21); }
    if at != 21 { PutElsewhere(cell, at, bytes, 21, 30); }
    if at != 32 { PutElsewhere(cell, at, bytes, 32, 41); }
    if at != 41 { PutElsewhere(cell, at, bytes, 41, 50); }
    BindingsApart(cell, e.bindings, at, bytes);
  }

  /** The record after the last becomes a binding once the count says so. */
  lemma ScopeGrows(cell: seq<byte>, e: Scope, b: Binding)
    requires IsScope(cell, e) && |e.bindings| < e.capacity && BindingLies(cell, |e.bindings|, b)
    ensures IsScope(Put(cell, 4, ToLittleEndian(|e.bindings| + 1, 4)), e.(bindings := e.bindings + [b]))
  {
    hide ToLittleEndian, ValueBytes, HandleBytes, Put, BindingLies;
    var bytes := ToLittleEndian(|e.bindings| + 1, 4);
    PutHere(cell, 4, bytes);
    PutElsewhere(cell, 4, bytes, 8, 12);
    PutElsewhere(cell, 4, bytes, 12, 21);
    PutElsewhere(cell, 4, bytes, 21, 30);
    PutElsewhere(cell, 4, bytes, 32, 41);
    PutElsewhere(cell, 4, bytes, 41, 50);
    var bindings := e.bindings + [b];
    forall i | 0 <= i < |bindings| ensures BindingLies(cell, i, bindings[i]) {}
    BindingsApart(cell, bindings, 4, bytes);
  }

  /** Writing inside one binding changes that one alone. */
  lemma ScopeUpdates(cell: seq<byte>, e: Scope, index: nat, at: nat, bytes: seq<byte>, b: Binding)
    requires IsScope(cell, e) && index < |e.bindings|
    requires 56 + index * 24 <= at && at + |bytes| <= 56 + index * 24 + 24
    requires BindingLies(Put(cell, at, bytes), index, b)
    ensures IsScope(Put(cell, at, bytes), e.(bindings := e.bindings[index := b]))
  {
    hide ToLittleEndian, ValueBytes, HandleBytes, Put;
    PutElsewhere(cell, at, bytes, 4, 8);
    PutElsewhere(cell, at, bytes, 8, 12);
    PutElsewhere(cell, at, bytes, 12, 21);
    PutElsewhere(cell, at, bytes, 21, 30);
    PutElsewhere(cell, at, bytes, 32, 41);
    PutElsewhere(cell, at, bytes, 41, 50);
    hide BindingLies;
    var bindings := e.bindings[index := b];
    forall i | 0 <= i < |bindings| ensures BindingLies(Put(cell, at, bytes), i, bindings[i]) {
      if i != index {
        assert BindingLies(cell, i, e.bindings[i]);
        BindingApart(cell, i, e.bindings[i], at, bytes);
      }
    }
  }

  lemma NameWritten(cell: seq<byte>, i: nat, name: H.Handle, value: Value)
    requires 56 + i * 24 + 24 <= |cell|
    ensures BindingLies(Put(Put(cell, 56 + i * 24 + 4, HandleBytes(Some(name))), 56 + i * 24 + 12, ValueBytes(value)), i, Binding(name, value))
  {
    hide ValueBytes, HandleBytes, Put;
    var at := 56 + i * 24;
    var named := Put(cell, at + 4, HandleBytes(Some(name)));
    PutHere(cell, at + 4, HandleBytes(Some(name)));
    PutHere(named, at + 12, ValueBytes(value));
    PutElsewhere(named, at + 12, ValueBytes(value), at + 4, at + 12);
  }

  lemma ValueWritten(cell: seq<byte>, i: nat, b: Binding, value: Value)
    requires BindingLies(cell, i, b)
    ensures BindingLies(Put(cell, 56 + i * 24 + 12, ValueBytes(value)), i, b.(value := value))
  {
    hide ValueBytes, HandleBytes, Put;
    var at := 56 + i * 24;
    PutHere(cell, at + 12, ValueBytes(value));
    PutElsewhere(cell, at + 12, ValueBytes(value), at + 4, at + 12);
  }

  lemma BlankScope(cell: seq<byte>, capacity: u32)
    requires Blank(cell) && |cell| == 56 + capacity * 24
    ensures IsScope(Put(cell, 8, ToLittleEndian(capacity, 4)), Scope(Undefined, Undefined, Undefined, Undefined, capacity, []))
  {
    ZeroFields();
    hide ToLittleEndian, ValueBytes, Put;
    var bytes := ToLittleEndian(capacity, 4);
    PutHere(cell, 8, bytes);
    PutElsewhere(cell, 8, bytes, 4, 8);
    PutElsewhere(cell, 8, bytes, 12, 21);
    PutElsewhere(cell, 8, bytes, 21, 30);
    PutElsewhere(cell, 8, bytes, 32, 41);
    PutElsewhere(cell, 8, bytes, 41, 50);
  }

  /** A new environment with room for some bindings and none yet. */
  method CreateScope(cell: array<byte>, kind: byte, parent: Value, capacity: u32)
    requires cell.Length == 56 + capacity * 24 && Blank(cell[..])
    modifies cell
    ensures IsScope(cell[..], Scope(parent, Undefined, Undefined, Undefined, capacity, []))
  {
    hide ValueBytes, IsScope, Put, ToLittleEndian;
    WriteWordAt(cell, 8, capacity);
    BlankScope(old(cell[..]), capacity);
    ghost var e := Scope(Undefined, Undefined, Undefined, Undefined, capacity, []);
    ScopePut(cell[..], e, 0, [kind], e);
    WriteByteAt(cell, 0, kind);
    ScopePut(cell[..], e, 12, ValueBytes(parent), e.(parent := parent));
    EncodeAt(cell, 12, parent);
  }

  method SetThis(cell: array<byte>, v: Value, ghost e: Scope)
    requires IsScope(cell[..], e)
    modifies cell
    ensures IsScope(cell[..], e.(receiver := v))
  {
    hide ValueBytes, IsScope, Put;
    HeaderThere(cell[..], e);
    ScopePut(cell[..], e, 21, ValueBytes(v), e.(receiver := v));
    EncodeAt(cell, 21, v);
    ScopePut(cell[..], e.(receiver := v), 30, [0], e.(receiver := v));
    WriteByteAt(cell, 30, 0);
  }

  lemma HeaderThere(cell: seq<byte>, e: Scope)
    requires IsScope(cell, e)
    ensures |cell| >= 56 + e.capacity * 24 && |e.bindings| <= e.capacity
    ensures T.Word(cell, 4) == Some(|e.bindings|) && T.Word(cell, 8) == Some(e.capacity as nat)
  {
    hide ValueBytes, ToLittleEndian, T.Word;
    WordFound(cell, 4, |e.bindings|);
    WordFound(cell, 8, e.capacity);
  }

  method SetNewTarget(cell: array<byte>, v: Value, ghost e: Scope)
    requires IsScope(cell[..], e)
    modifies cell
    ensures IsScope(cell[..], e.(newTarget := v))
  {
    hide ValueBytes, IsScope, Put;
    HeaderThere(cell[..], e);
    ScopePut(cell[..], e, 32, ValueBytes(v), e.(newTarget := v));
    EncodeAt(cell, 32, v);
  }

  method SetFunction(cell: array<byte>, v: Value, ghost e: Scope)
    requires IsScope(cell[..], e)
    modifies cell
    ensures IsScope(cell[..], e.(callee := v))
  {
    hide ValueBytes, IsScope, Put;
    HeaderThere(cell[..], e);
    ScopePut(cell[..], e, 41, ValueBytes(v), e.(callee := v));
    EncodeAt(cell, 41, v);
  }

  /** Add a binding without a value; refused exactly when there is no room. */
  method Declare(cell: array<byte>, name: H.Handle, flags: byte, ghost e: Scope) returns (index: Option<u32>)
    requires IsScope(cell[..], e)
    modifies cell
    ensures index == if |e.bindings| < e.capacity then Some(|e.bindings|) else None
    ensures IsScope(cell[..], if index.Some? then e.(bindings := e.bindings + [Binding(name, Undefined)]) else e)
  {
    hide ValueBytes, HandleBytes, IsScope, Put, BindingLies, T.Word, ToLittleEndian;
    HeaderThere(cell[..], e);
    var count, capacity := T.Word(cell[..], 4).value, T.Word(cell[..], 8).value;
    if count >= capacity { return None; }
    var at := 56 + count * 24;
    var unset := if flags / 2 % 2 == 1 then flags - 2 else flags;
    ScopePut(cell[..], e, at, [unset], e);
    WriteByteAt(cell, at, unset);
    NameWritten(cell[..], count, name, Undefined);
    ScopePut(cell[..], e, at + 4, HandleBytes(Some(name)), e);
    WriteHandleAt(cell, at + 4, Some(name));
    ScopePut(cell[..], e, at + 12, ValueBytes(Undefined), e);
    EncodeAt(cell, at + 12, Undefined);
    ScopeGrows(cell[..], e, Binding(name, Undefined));
    WriteWordAt(cell, 4, count + 1);
    index := Some(count);
  }

  /** Give a binding its value; only a record past the end of the cell is refused, and
      one past the bindings in use changes none of them. */
  method Initialise(cell: array<byte>, i: u32, v: Value, ghost e: Scope) returns (ok: bool)
    requires IsScope(cell[..], e)
    modifies cell
    ensures ok <==> 56 + i * 24 + 24 <= cell.Length
    ensures i < |e.bindings| ==> ok
    ensures IsScope(cell[..], if i < |e.bindings| then e.(bindings := e.bindings[i := e.bindings[i].(value := v)]) else e)
  {
    hide ValueBytes, HandleBytes, IsScope, Put, BindingLies;
    HeaderThere(cell[..], e);
    var at := 56 + i * 24;
    if at + 24 > cell.Length { return false; }
    var flags := if cell[at] / 2 % 2 == 1 then cell[at] else cell[at] + 2;
    if i < |e.bindings| {
      ScopeHas(cell[..], e, i);
      BindingApart(cell[..], i, e.bindings[i], at, [flags]);
      ScopeUpdates(cell[..], e, i, at, [flags], e.bindings[i]);
      assert e.bindings[i := e.bindings[i]] == e.bindings;
    } else {
      ScopePut(cell[..], e, at, [flags], e);
    }
    WriteByteAt(cell, at, flags);
    if i < |e.bindings| {
      ScopeHas(cell[..], e, i);
      ValueWritten(cell[..], i, e.bindings[i], v);
      ScopeUpdates(cell[..], e, i, at + 12, ValueBytes(v), e.bindings[i].(value := v));
    } else {
      ScopePut(cell[..], e, at + 12, ValueBytes(v), e);
    }
    EncodeAt(cell, at + 12, v);
    ok := true;
  }

  /** Take a binding's name and value away; the others keep their places. */
  method Remove(cell: array<byte>, i: u32, ghost e: Scope) returns (ok: bool)
    requires IsScope(cell[..], e)
    modifies cell
    ensures ok <==> i < |e.bindings|
    ensures IsScope(cell[..], if ok then e.(bindings := e.bindings[i := Binding(H.Handle(0, 0), Undefined)]) else e)
  {
    hide ValueBytes, HandleBytes, IsScope, Put, BindingLies, T.Word;
    HeaderThere(cell[..], e);
    var count := T.Word(cell[..], 4).value;
    if i >= count { return false; }
    var at := 56 + i * 24;
    ghost var b := e.bindings[i];
    ScopeHas(cell[..], e, i);
    BindingApart(cell[..], i, b, at, [1]);
    ScopeUpdates(cell[..], e, i, at, [1], b);
    assert e.bindings[i := b] == e.bindings;
    WriteByteAt(cell, at, 1);
    ScopeHas(cell[..], e, i);
    Renamed(cell[..], i, b, H.Handle(0, 0));
    ScopeUpdates(cell[..], e, i, at + 4, HandleBytes(Some(H.Handle(0, 0))), b.(name := H.Handle(0, 0)));
    WriteHandleAt(cell, at + 4, Some(H.Handle(0, 0)));
    ghost var e' := e.(bindings := e.bindings[i := b.(name := H.Handle(0, 0))]);
    ScopeHas(cell[..], e', i);
    ValueWritten(cell[..], i, b.(name := H.Handle(0, 0)), Undefined);
    ScopeUpdates(cell[..], e', i, at + 12, ValueBytes(Undefined), Binding(H.Handle(0, 0), Undefined));
    EncodeAt(cell, at + 12, Undefined);
    assert e'.bindings[i := Binding(H.Handle(0, 0), Undefined)] == e.bindings[i := Binding(H.Handle(0, 0), Undefined)];
    ok := true;
  }

  lemma Renamed(cell: seq<byte>, i: nat, b: Binding, name: H.Handle)
    requires BindingLies(cell, i, b)
    ensures BindingLies(Put(cell, 56 + i * 24 + 4, HandleBytes(Some(name))), i, b.(name := name))
  {
    hide ValueBytes, HandleBytes, Put;
    var at := 56 + i * 24;
    PutHere(cell, at + 4, HandleBytes(Some(name)));
    PutElsewhere(cell, at + 4, HandleBytes(Some(name)), at + 12, at + 21);
  }

  lemma ScopeHas(cell: seq<byte>, e: Scope, i: nat)
    requires IsScope(cell, e) && i < |e.bindings|
    ensures BindingLies(cell, i, e.bindings[i])
  {
    hide BindingLies;
  }

  // ----- reaction lists -----

  datatype Reaction = Reaction(onFulfilled: Value, onRejected: Value, derived: Value)

  ghost predicate IsReactions(cell: seq<byte>, list: seq<Reaction>) {
    && |list| <= U32_MAX && 8 + |list| * 32 <= |cell|
    && cell[0..4] == ToLittleEndian(|list|, 4)
    && forall i :: 0 <= i < |list| ==> ReactionLies(cell, i, list[i])
  }

  ghost predicate ReactionLies(cell: seq<byte>, i: nat, r: Reaction) {
    var at := 8 + i * 32;
    && at + 32 <= |cell|
    && cell[at + 1..at + 10] == ValueBytes(r.onFulfilled)
    && cell[at + 10..at + 19] == ValueBytes(r.onRejected)
    && cell[at + 19..at + 28] == ValueBytes(r.derived)
  }

  function ReactionReferences(r: Reaction): seq<H.Handle> {
    ReferenceOf(r.onFulfilled) + ReferenceOf(r.onRejected) + ReferenceOf(r.derived)
  }

  lemma ReactionFound(cell: seq<byte>, i: nat, r: Reaction)
    requires ReactionLies(cell, i, r) && T.Readable(T.Reactions, cell, i)
    ensures T.RecordOf(T.Reactions, cell, i) == ReactionReferences(r)
  {
    hide T.ValueAt, ValueBytes, ReferenceOf;
    var at := 8 + i * 32;
    var record := cell[at..at + 32];
    SliceOfSlice(cell, at, 32, 1, 10);
    SliceOfSlice(cell, at, 32, 10, 19);
    SliceOfSlice(cell, at, 32, 19, 28);
    ValueRefs(record, 1, r.onFulfilled);
    ValueRefs(record, 10, r.onRejected);
    ValueRefs(record, 19, r.derived);
  }

  /** The collector finds in a reaction list both handlers and the promise of each reaction, and nothing else. */
  lemma ReactionsReferences(cell: seq<byte>, list: seq<Reaction>)
    requires IsReactions(cell, list)
    ensures T.References(H.Elements, cell) ==
            Flat(seq(|list|, i requires 0 <= i < |list| => ReactionReferences(list[i])))
  {
    hide ToLittleEndian, ReactionReferences, T.ReactionRefs, T.Readable, ValueBytes;
    var parts := seq(|list|, i requires 0 <= i < |list| => ReactionReferences(list[i]));
    forall i | 0 <= i < |parts|
      ensures T.Readable(T.Reactions, cell, i) && T.RecordOf(T.Reactions, cell, i) == parts[i]
    {
      WithinRecords(T.Reactions, cell, |parts|, i);
      ReactionFound(cell, i, list[i]);
    }
    hide T.RecordOf, ReactionLies;
    TableReferences(T.Reactions, cell, parts);
  }

  lemma ReactionApart(cell: seq<byte>, i: nat, r: Reaction, at: nat, bytes: seq<byte>)
    requires ReactionLies(cell, i, r) && (at + |bytes| <= 8 + i * 32 || 8 + i * 32 + 32 <= at)
    ensures ReactionLies(Put(cell, at, bytes), i, r)
  {
    hide ValueBytes, Put;
    var p := 8 + i * 32;
    PutElsewhere(cell, at, bytes, p + 1, p + 10);
    PutElsewhere(cell, at, bytes, p + 10, p + 19);
    PutElsewhere(cell, at, bytes, p + 19, p + 28);
  }

  /** Writing after the reactions in use keeps them. */
  lemma ReactionsPut(cell: seq<byte>, list: seq<Reaction>, at: nat, bytes: seq<byte>)
    requires IsReactions(cell, list) && 8 + |list| * 32 <= at
    ensures IsReactions(Put(cell, at, bytes), list)
  {
    hide ToLittleEndian, Put, ReactionLies;
    PutElsewhere(cell, at, bytes, 0, 4);
    forall i | 0 <= i < |list| ensures ReactionLies(Put(cell, at, bytes), i, list[i]) {
      ReactionApart(cell, i, list[i], at, bytes);
    }
  }

  lemma ReactionWritten(cell: seq<byte>, i: nat, r: Reaction)
    requires 8 + i * 32 + 32 <= |cell|
    ensures var at := 8 + i * 32;
            var first := Put(cell, at + 1, ValueBytes(r.onFulfilled));
            var second := Put(first, at + 10, ValueBytes(r.onRejected));
            ReactionLies(Put(second, at + 19, ValueBytes(r.derived)), i, r)
  {
    hide ValueBytes, Put;
    var at := 8 + i * 32;
    var a, b, c := ValueBytes(r.onFulfilled), ValueBytes(r.onRejected), ValueBytes(r.derived);
    var first := Put(cell, at + 1, a);
    var second := Put(first, at + 10, b);
    PutHere(cell, at + 1, a);
    PutHere(first, at + 10, b);
    PutElsewhere(first, at + 10, b, at + 1, at + 10);
    PutHere(second, at + 19, c);
    PutElsewhere(second, at + 19, c, at + 1, at + 10);
    PutElsewhere(second, at + 19, c, at + 10, at + 19);
  }

  lemma ReactionsGrow(cell: seq<byte>, list: seq<Reaction>, r: Reaction)
    requires IsReactions(cell, list) && |list| < U32_MAX && ReactionLies(cell, |list|, r)
    ensures IsReactions(Put(cell, 0, ToLittleEndian(|list| + 1, 4)), list + [r])
  {
    ReactionInside(cell, |list|, r);
    EachLies(cell, list);
    OneMoreLies(cell, list, r);
    hide *;
    Recounted(cell, list + [r]);
  }

  /** The reactions a cell holds are a list once the count says so. */
  lemma Recounted(cell: seq<byte>, list: seq<Reaction>)
    requires |list| <= U32_MAX && 8 + |list| * 32 <= |cell|
    requires forall i :: 0 <= i < |list| ==> ReactionLies(cell, i, list[i])
    ensures IsReactions(Put(cell, 0, ToLittleEndian(|list|, 4)), list)
  {
    hide ToLittleEndian, Put, ReactionLies, IsReactions;
    var bytes := ToLittleEndian(|list|, 4);
    PutHere(cell, 0, bytes);
    HeaderKeeps(cell, list, bytes);
    AreReactions(Put(cell, 0, bytes), list);
  }

  lemma EachLies(cell: seq<byte>, list: seq<Reaction>)
    requires IsReactions(cell, list)
    ensures forall i :: 0 <= i < |list| ==> ReactionLies(cell, i, list[i])
  {
    hide ReactionLies;
  }

  lemma AreReactions(cell: seq<byte>, list: seq<Reaction>)
    requires |list| <= U32_MAX && 8 + |list| * 32 <= |cell| && cell[0..4] == ToLittleEndian(|list|, 4)
    requires forall i :: 0 <= i < |list| ==> ReactionLies(cell, i, list[i])
    ensures IsReactions(cell, list)
  {
    hide ReactionLies;
  }

  lemma OneMoreLies(cell: seq<byte>, list: seq<Reaction>, r: Reaction)
    requires (forall i :: 0 <= i < |list| ==> ReactionLies(cell, i, list[i])) && ReactionLies(cell, |list|, r)
    ensures forall i :: 0 <= i < |list + [r]| ==> ReactionLies(cell, i, (list + [r])[i])
  {
    hide ReactionLies;
  }

  lemma HeaderKeeps(cell: seq<byte>, list: seq<Reaction>, bytes: seq<byte>)
    requires |bytes| == 4 && forall i :: 0 <= i < |list| ==> ReactionLies(cell, i, list[i])
    ensures forall i :: 0 <= i < |list| ==> ReactionLies(Put(cell, 0, bytes), i, list[i])
  {
    hide Put, ReactionLies;
    forall i | 0 <= i < |list| ensures ReactionLies(Put(cell, 0, bytes), i, list[i]) {
      ReactionApart(cell, i, list[i], 0, bytes);
    }
  }

  lemma ReactionInside(cell: seq<byte>, i: nat, r: Reaction)
    requires ReactionLies(cell, i, r)
    ensures 8 + i * 32 + 32 <= |cell|
  {}

  /** Write one more reaction into a list with room for it. */
  method AddReaction(cell: array<byte>, count: u32, r: Reaction, ghost list: seq<Reaction>)
    requires IsReactions(cell[..], list) && count == |list| < U32_MAX && 8 + count * 32 + 32 <= cell.Length
    modifies cell
    ensures IsReactions(cell[..], list + [r])
  {
    hide ToLittleEndian, ValueBytes, Put, IsReactions, ReactionLies;
    var at := 8 + count * 32;
    ReactionsPut(cell[..], list, at, [0]);
    WriteByteAt(cell, at, 0);
    ReactionWritten(cell[..], count, r);
    ReactionsPut(cell[..], list, at + 1, ValueBytes(r.onFulfilled));
    EncodeAt(cell, at + 1, r.onFulfilled);
    ReactionsPut(cell[..], list, at + 10, ValueBytes(r.onRejected));
    EncodeAt(cell, at + 10, r.onRejected);
    ReactionsPut(cell[..], list, at + 19, ValueBytes(r.derived));
    EncodeAt(cell, at + 19, r.derived);
    ReactionsGrow(cell[..], list, r);
    WriteWordAt(cell, 0, count + 1);
  }
}
