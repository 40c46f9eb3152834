/** Property tables: a flat array of records that refines an insertion-ordered map. */
module PropertyTables {
  import opened Words
  import opened SoftRemainder
  import F = Assembling
  import H = HeapModel
  import opened PropertyRecords

  const INITIAL_CAPACITY := 4

  /** Storage for `|cells|` records, the first `count` of them in use. */
  datatype Table = Table(cells: seq<Record>, count: nat)

  const BLANK := Record(Index(0), Data(DEFAULT, Undefined))

  predicate Distinct(entries: seq<Record>) {
    forall i, j :: 0 <= i < j < |entries| ==> entries[i].key != entries[j].key
  }

  /** Descriptors as records give them back. */
  predicate AllStored(entries: seq<Record>) { forall i :: 0 <= i < |entries| ==> KeptWhole(entries[i].descriptor) }

  predicate Valid(t: Table) { t.count <= |t.cells| && Distinct(t.cells[..t.count]) && AllStored(t.cells[..t.count]) }

  function Entries(t: Option<Table>): seq<Record>
    requires t.Some? ==> Valid(t.value)
  {
    if t.None? then [] else t.value.cells[..t.value.count]
  }

  /** The map the entries stand for. */
  function Lookup(entries: seq<Record>, key: Key): Option<Descriptor> {
    if entries == [] then None
    else if entries[|entries| - 1].key == key then Some(entries[|entries| - 1].descriptor)
    else Lookup(entries[..|entries| - 1], key)
  }

  lemma {:induction false} LookupAt(entries: seq<Record>, i: nat)
    requires Distinct(entries) && i < |entries|
    ensures Lookup(entries, entries[i].key) == Some(entries[i].descriptor)
    decreases |entries|
  {
    if i < |entries| - 1 { LookupAt(entries[..|entries| - 1], i); }
  }

  lemma {:induction false} LookupNone(entries: seq<Record>, key: Key)
    requires forall i :: 0 <= i < |entries| ==> entries[i].key != key
    ensures Lookup(entries, key) == None
  {
    if entries != [] { LookupNone(entries[..|entries| - 1], key); }
  }

  /** Find a record.  The guess for an element is compared like any other record. */
  method Find(t: Option<Table>, key: Key) returns (at: Option<nat>)
    requires t.Some? ==> Valid(t.value)
    ensures at.Some? ==> at.value < |Entries(t)| && Entries(t)[at.value].key == key
    ensures at.Some? ==> Lookup(Entries(t), key) == Some(Entries(t)[at.value].descriptor)
    ensures at.None? ==> (forall i :: 0 <= i < |Entries(t)| ==> Entries(t)[i].key != key) && Lookup(Entries(t), key) == None
  {
    hide Lookup;
    if t.None? {
      LookupNone([], key);
      return None;
    }
    var cells, count := t.value.cells, t.value.count;
    ghost var entries := Entries(t);
    if key.Index? {
      var guess := if key.value == U32_MAX then U32_MAX else key.value + 1;
      if guess < count && cells[guess].key == key {
        LookupAt(entries, guess);
        return Some(guess);
      }
    }
    var index := 0;
    while index < count
      invariant 0 <= index <= count && forall i :: 0 <= i < index ==> entries[i].key != key
    {
      if cells[index].key == key {
        LookupAt(entries, index);
        return Some(index);
      }
      index := index + 1;
    }
    LookupNone(entries, key);
    at := None;
  }

  /** A larger table with the same records; `room` says whether it could be allocated. */
  method Grow(t: Table, capacity: nat, room: bool) returns (larger: Option<Table>)
    requires Valid(t) && t.count <= Max(2 * capacity, INITIAL_CAPACITY)
    ensures larger.Some? <==> room
    ensures room ==> Valid(larger.value) && Entries(larger) == Entries(Some(t))
    ensures room ==> |larger.value.cells| == Max(2 * capacity, INITIAL_CAPACITY)
  {
    if !room { return None; }
    var cells := seq(Max(2 * capacity, INITIAL_CAPACITY), _ => BLANK);
    var index := 0;
    while index < t.count
      invariant 0 <= index <= t.count && |cells| == Max(2 * capacity, INITIAL_CAPACITY)
      invariant cells[..index] == t.cells[..index]
    {
      cells := cells[index := t.cells[index]];
      index := index + 1;
    }
    larger := Some(Table(cells, t.count));
  }

  /** A record after all the others, the table growing when it is full. */
  method Append(t: Option<Table>, key: Key, descriptor: Descriptor, room: bool) returns (r: Option<Table>)
    requires t.Some? ==> Valid(t.value)
    requires forall i :: 0 <= i < |Entries(t)| ==> Entries(t)[i].key != key
    ensures r.None? <==> !room && (t.None? || t.value.count == |t.value.cells|)
    ensures r.Some? ==> Valid(r.value) && Entries(r) == Entries(t) + [Record(key, Stored(descriptor))]
  {
    hide Distinct, Stored, KeptWhole;
    StoredIff(descriptor);
    var table: Table;
    if t.None? {
      NoneDistinct();
      if !room { return None; }
      table := Table(seq(INITIAL_CAPACITY, _ => BLANK), 0);
    } else if t.value.count == |t.value.cells| {
      var larger := Grow(t.value, |t.value.cells|, room);
      if larger.None? { return None; }
      table := larger.value;
    } else {
      table := t.value;
    }
    ghost var entries := Entries(t);
    assert table.cells[..table.count] == entries;
    var record := Record(key, Stored(descriptor));
    var cells := table.cells[table.count := record];
    assert cells[..table.count + 1] == table.cells[..table.count] + [record];
    AppendDistinct(entries, record);
    r := Some(Table(cells, table.count + 1));
  }

  /** Move the later records down, which keeps insertion order. */
  method Remove(t: Table, at: nat) returns (r: Table)
    requires Valid(t) && at < t.count
    ensures Valid(r) && |r.cells| == |t.cells|
    ensures Entries(Some(r)) == Entries(Some(t))[..at] + Entries(Some(t))[at + 1..]
  {
    var cells, cursor := t.cells, at;
    while cursor + 1 < t.count
      invariant at <= cursor < t.count && |cells| == |t.cells|
      invariant forall i :: 0 <= i < at ==> cells[i] == t.cells[i]
      invariant forall i :: at <= i < cursor ==> cells[i] == t.cells[i + 1]
      invariant forall i :: cursor < i < t.count ==> cells[i] == t.cells[i]
    {
      cells := cells[cursor := cells[cursor + 1]];
      cursor := cursor + 1;
    }
    r := Table(cells, t.count - 1);
    assert r.cells[..r.count] == t.cells[..t.count][..at] + t.cells[..t.count][at + 1..];
  }

  // ----- the three updates, on entries -----

  lemma NoneDistinct()
    ensures Distinct([])
  {}

  lemma AppendDistinct(entries: seq<Record>, record: Record)
    requires Distinct(entries) && forall i :: 0 <= i < |entries| ==> entries[i].key != record.key
    ensures Distinct(entries + [record])
  {}

  lemma ReplaceDistinct(entries: seq<Record>, at: nat, d: Descriptor)
    requires Distinct(entries) && at < |entries|
    ensures Distinct(entries[at := Record(entries[at].key, d)])
  {}

  lemma {:induction false} LookupReplaced(entries: seq<Record>, at: nat, d: Descriptor, key: Key)
    requires Distinct(entries) && at < |entries|
    ensures Lookup(entries[at := Record(entries[at].key, d)], key) == if key == entries[at].key then Some(d) else Lookup(entries, key)
    decreases |entries|
  {
    var last := |entries| - 1;
    var after := entries[at := Record(entries[at].key, d)];
    if at < last {
      assert after[..last] == entries[..last][at := Record(entries[at].key, d)];
      LookupReplaced(entries[..last], at, d, key);
    } else {
      assert after[..last] == entries[..last];
    }
  }

  lemma LookupAppended(entries: seq<Record>, record: Record, key: Key)
    ensures Lookup(entries + [record], key) == if key == record.key then Some(record.descriptor) else Lookup(entries, key)
  {
    assert (entries + [record])[..|entries|] == entries;
  }

  lemma {:induction false} LookupRemoved(entries: seq<Record>, at: nat, key: Key)
    requires Distinct(entries) && at < |entries|
    ensures Lookup(entries[..at] + entries[at + 1..], key) == if key == entries[at].key then None else Lookup(entries, key)
    decreases |entries|
  {
    var last := |entries| - 1;
    var after := entries[..at] + entries[at + 1..];
    if at < last {
      var front := entries[..last];
      assert after[..last - 1] == front[..at] + front[at + 1..];
      assert after[last - 1] == entries[last];
      LookupRemoved(front, at, key);
    } else {
      assert after == entries[..last];
      if key == entries[at].key { LookupNone(after, key); }
    }
  }

  // ----- redefinition -----

  /** The equality of `===`, where it needs no text. */
  predicate StrictEquals(a: Value, b: Value) {
    match (a, b)
    case (Number(x), Number(y)) => Compare(x, y) == 0
    case _ => a == b
  }

  /** Whether a redefinition is admitted. */
  predicate IsCompatible(current: Descriptor, proposed: Descriptor) {
    || current.attributes.configurable
    || (&& !proposed.attributes.configurable
        && current.attributes.enumerable == proposed.attributes.enumerable
        && current.Data? == proposed.Data?
        && if current.Data? then
             current.attributes.writable || (!proposed.attributes.writable && StrictEquals(current.value, proposed.value))
           else current.getter == proposed.getter && current.setter == proposed.setter)
  }

  /** The same value, but perhaps the other zero. */
  predicate SameButZero(a: Value, b: Value) {
    a == b || (a.Number? && b.Number? && a.bits % SIGN == 0 && b.bits % SIGN == 0)
  }

  const SIGN := 0x8000_0000_0000_0000

  predicate IsNaN(v: Value) { v.Number? && F.IsNaN(v.bits) }

  /** `later` keeps what is permanent about a property that is not configurable. */
  predicate Permanent(d: Descriptor, later: Descriptor) {
    && !later.attributes.configurable && later.attributes.enumerable == d.attributes.enumerable && later.Data? == d.Data?
    && (d.Data? && !d.attributes.writable ==> !later.attributes.writable && SameButZero(d.value, later.value))
    && (d.Accessor? ==> later.getter == d.getter && later.setter == d.setter)
  }

  lemma StrictIff(a: Value, b: Value)
    ensures StrictEquals(a, b) <==> SameButZero(a, b) && !IsNaN(a)
  {}

  /** Of a property that is not configurable, a redefinition is admitted exactly when it
      keeps what is permanent; but a frozen NaN admits none, not even itself. */
  lemma AdmittedIff(current: Descriptor, proposed: Descriptor)
    requires !current.attributes.configurable
    ensures IsCompatible(current, proposed) <==>
            Permanent(current, proposed) && !(current.Data? && !current.attributes.writable && IsNaN(current.value))
  {
    hide StrictEquals, SameButZero, IsNaN;
    if current.Data? && proposed.Data? { StrictIff(current.value, proposed.value); }
  }

  /** What a record keeps of an admitted redefinition keeps it too. */
  lemma StoredPermanent(current: Descriptor, proposed: Descriptor)
    requires KeptWhole(current) && Permanent(current, proposed)
    ensures Permanent(current, Stored(proposed))
  {}

  lemma PermanentOn(a: Descriptor, b: Descriptor, c: Descriptor)
    requires Permanent(a, b) && Permanent(b, c)
    ensures Permanent(a, c)
  {}

  /** Defining a property again with the very descriptor it was given is admitted
      exactly when it is configurable, or data that is writable or no NaN, or an
      accessor that its record kept whole. */
  lemma RedefinesAsIs(d: Descriptor)
    ensures IsCompatible(Stored(d), d) <==>
            || d.attributes.configurable
            || (if d.Data? then d.attributes.writable || !IsNaN(d.value) else KeptWhole(d))
  {
    hide StrictEquals;
    StoredIff(d);
    if d.Data? { StrictIff(d.value, d.value); }
  }

  /** An accessor whose setter is in generation 2^16: its record names another handle,
      and defining it again is refused. */
  lemma CutSetterIsLost()
    ensures var d := Accessor(Attributes(false, true, false), Undefined, Object(H.Handle(0, 0x1_0000)));
            Stored(d) == d.(setter := Object(H.Handle(0, 0))) && !IsCompatible(Stored(d), d)
  {}

  /** A frozen zero can change its sign: strict equality does not tell the zeros apart. */
  lemma FrozenZeroMayFlip()
    ensures var frozen := Attributes(false, true, false);
            var plus, minus := Data(frozen, Number(0)), Data(frozen, Number(0x8000_0000_0000_0000));
            IsCompatible(plus, minus) && plus != minus
  {}

  /** A frozen number is kept bit for bit exactly when it is not a zero. */
  lemma FrozenKeptIff(bits: u64)
    ensures var frozen := Attributes(false, true, false);
            (forall later: u64 :: IsCompatible(Data(frozen, Number(bits)), Data(frozen, Number(later))) ==> later == bits)
              <==> bits % 0x8000_0000_0000_0000 != 0
  {
    var frozen := Attributes(false, true, false);
    if bits % 0x8000_0000_0000_0000 == 0 {
      var later: u64 := if bits == 0 then 0x8000_0000_0000_0000 else 0;
      assert IsCompatible(Data(frozen, Number(bits)), Data(frozen, Number(later)));
    } else {
      forall later: u64 | IsCompatible(Data(frozen, Number(bits)), Data(frozen, Number(later))) ensures later == bits {
        assert Compare(bits, later) == 0;
      }
    }
  }
}
