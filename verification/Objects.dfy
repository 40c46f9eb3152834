/** Ordinary objects: own properties, and the prototype chain. */
module Objects {
  import opened Words
  import H = HeapModel
  import opened PropertyRecords
  import opened PropertyTables

  datatype ObjectError = ArenaFull | PrototypeChainTooDeep | TooManyKeys

  /** The prototype is an object, named by its handle, or null. */
  datatype ObjectCell = ObjectCell(prototype: Option<nat>, extensible: bool, table: Option<Table>)

  const MAX_PROTOTYPE_DEPTH := 256

  type Heap = seq<ObjectCell>

  // ----- prototype chains -----

  /** The `n`-th prototype of `h`, until the chain ends. */
  function Ancestor(heap: Heap, h: nat, n: nat): Option<nat>
    decreases n
  {
    if h >= |heap| then None
    else if n == 0 then Some(h)
    else if heap[h].prototype.None? then None
    else Ancestor(heap, heap[h].prototype.value, n - 1)
  }

  ghost predicate Ends(heap: Heap, h: nat) { exists n: nat :: Ancestor(heap, h, n).None? }

  /** Prototypes name objects, and every chain ends. */
  ghost predicate Acyclic(heap: Heap) {
    && (forall h :: 0 <= h < |heap| && heap[h].prototype.Some? ==> heap[h].prototype.value < |heap|)
    && (forall h: nat :: h < |heap| ==> Ends(heap, h))
  }

  lemma {:induction false} AncestorSum(heap: Heap, h: nat, m: nat, n: nat)
    ensures Ancestor(heap, h, m).None? ==> Ancestor(heap, h, m + n).None?
    ensures Ancestor(heap, h, m).Some? ==> Ancestor(heap, h, m + n) == Ancestor(heap, Ancestor(heap, h, m).value, n)
    decreases m
  {
    if m > 0 && h < |heap| && heap[h].prototype.Some? { AncestorSum(heap, heap[h].prototype.value, m - 1, n); }
  }

  /** No object is its own ancestor. */
  lemma NoCycles(heap: Heap, h: nat, n: nat)
    requires Acyclic(heap) && h < |heap| && n > 0
    ensures Ancestor(heap, h, n) != Some(h)
  {
    if Ancestor(heap, h, n) == Some(h) {
      assert Ends(heap, h);
      var m: nat :| Ancestor(heap, h, m).None?;
      Around(heap, h, n, m);
      AncestorSum(heap, h, m, m * n - m) by { assert m * n >= m; }
    }
  }

  lemma {:induction false} Around(heap: Heap, h: nat, n: nat, m: nat)
    requires h < |heap| && n > 0 && Ancestor(heap, h, n) == Some(h)
    ensures m * n >= m && Ancestor(heap, h, m * n) == Some(h)
    decreases m
  {
    if m > 0 {
      Around(heap, h, n, m - 1);
      AncestorSum(heap, h, n, (m - 1) * n);
      assert n + (m - 1) * n == m * n;
    } else {
      assert m * n == 0;
    }
  }

  /** The chain from `h` does not meet `target` in its first `n` steps. */
  predicate Avoids(heap: Heap, h: nat, target: nat, n: nat) {
    forall i :: 0 <= i < n ==> Ancestor(heap, h, i) != Some(target)
  }

  /** A chain that does not meet the redirected object is as it was. */
  lemma {:induction false} SameChain(before: Heap, after: Heap, target: nat, h: nat, n: nat)
    requires |before| == |after| && (forall i :: 0 <= i < |before| && i != target ==> after[i].prototype == before[i].prototype)
    requires Avoids(before, h, target, n)
    ensures Ancestor(after, h, n) == Ancestor(before, h, n)
    decreases n
  {
    if n > 0 && h < |before| {
      assert Ancestor(before, h, 0) == Some(h);
      if before[h].prototype.Some? {
        var p := before[h].prototype.value;
        forall i | 0 <= i < n - 1 ensures Ancestor(before, p, i) != Some(target) {
          assert Ancestor(before, h, i + 1) == Ancestor(before, p, i);
        }
        SameChain(before, after, target, p, n - 1);
      }
    }
  }

  /** Redirecting an object to a chain that does not come back to it keeps every chain finite. */
  lemma RedirectAcyclic(before: Heap, after: Heap, target: nat, parent: nat, n: nat)
    requires Acyclic(before) && target < |before| && parent < |before|
    requires after == before[target := before[target].(prototype := Some(parent))]
    requires Avoids(before, parent, target, n) && Ancestor(before, parent, n).None?
    ensures Acyclic(after)
  {
    SameChain(before, after, target, parent, n);
    assert Ancestor(after, target, n + 1) == Ancestor(after, parent, n);
    EndsAfter(before, after, target, n + 1);
  }

  lemma CutAcyclic(before: Heap, after: Heap, target: nat)
    requires Acyclic(before) && target < |before| && after == before[target := before[target].(prototype := None)]
    ensures Acyclic(after)
  {
    assert Ancestor(after, target, 1).None?;
    EndsAfter(before, after, target, 1);
  }

  lemma EndsAfter(before: Heap, after: Heap, target: nat, m: nat)
    requires Acyclic(before) && target < |before| == |after|
    requires forall i :: 0 <= i < |before| && i != target ==> after[i].prototype == before[i].prototype
    requires after[target].prototype.Some? ==> after[target].prototype.value < |after|
    requires Ancestor(after, target, m).None?
    ensures Acyclic(after)
  {
    forall h: nat | h < |after| ensures Ends(after, h) {
      assert Ends(before, h);
      var n: nat :| Ancestor(before, h, n).None?;
      Reroute(before, after, target, h, n, m);
    }
  }

  lemma {:induction false} Reroute(before: Heap, after: Heap, target: nat, h: nat, n: nat, m: nat)
    requires target < |before| == |after|
    requires forall i :: 0 <= i < |before| && i != target ==> after[i].prototype == before[i].prototype
    requires Ancestor(before, h, n).None? && Ancestor(after, target, m).None?
    ensures Ends(after, h)
    decreases n
  {
    if h == target {
      assert Ancestor(after, h, m).None?;
    } else if h >= |before| || before[h].prototype.None? {
      assert Ancestor(after, h, 1).None?;
    } else {
      var p := before[h].prototype.value;
      Reroute(before, after, target, p, n - 1, m);
      var k: nat :| Ancestor(after, p, k).None?;
      assert Ancestor(after, h, k + 1) == Ancestor(after, p, k);
    }
  }

  /** Acyclicity looks at prototypes alone. */
  lemma SamePrototypes(before: Heap, after: Heap)
    requires Acyclic(before) && |before| == |after|
    requires forall i :: 0 <= i < |before| ==> after[i].prototype == before[i].prototype
    ensures Acyclic(after)
  {
    forall h: nat | h < |after| ensures Ends(after, h) {
      assert Ends(before, h);
      var n: nat :| Ancestor(before, h, n).None?;
      SameAncestor(before, after, h, n);
    }
  }

  lemma {:induction false} SameAncestor(before: Heap, after: Heap, h: nat, n: nat)
    requires |before| == |after| && forall i :: 0 <= i < |before| ==> after[i].prototype == before[i].prototype
    ensures Ancestor(after, h, n) == Ancestor(before, h, n)
    decreases n
  {
    if n > 0 && h < |before| && before[h].prototype.Some? { SameAncestor(before, after, before[h].prototype.value, n - 1); }
  }

  lemma CreatedAcyclic(before: Heap, cell: ObjectCell)
    requires Acyclic(before) && (cell.prototype.Some? ==> cell.prototype.value < |before|)
    ensures Acyclic(before + [cell])
  {
    var after := before + [cell];
    forall h: nat | h < |before| ensures Ends(after, h) {
      assert Ends(before, h);
      var n: nat :| Ancestor(before, h, n).None?;
      OlderAncestor(before, cell, h, n);
    }
    if cell.prototype.Some? {
      assert Ends(after, cell.prototype.value);
      var n: nat :| Ancestor(after, cell.prototype.value, n).None?;
      assert Ancestor(after, |before|, n + 1) == Ancestor(after, cell.prototype.value, n);
    } else {
      assert Ancestor(after, |before|, 1).None?;
    }
  }

  lemma {:induction false} OlderAncestor(before: Heap, cell: ObjectCell, h: nat, n: nat)
    requires h < |before| && forall i :: 0 <= i < |before| && before[i].prototype.Some? ==> before[i].prototype.value < |before|
    ensures Ancestor(before + [cell], h, n) == Ancestor(before, h, n)
    decreases n
  {
    if n > 0 && before[h].prototype.Some? { OlderAncestor(before, cell, before[h].prototype.value, n - 1); }
  }

  // ----- objects -----

  predicate Tables(heap: Heap) { forall i :: 0 <= i < |heap| && heap[i].table.Some? ==> Valid(heap[i].table.value) }

  /** The own properties of an object, in insertion order. */
  function Own(heap: Heap, h: nat): seq<Record>
    requires Tables(heap) && h < |heap|
  {
    Entries(heap[h].table)
  }

  /** An object's own properties replaced, and nothing else. */
  ghost predicate Replaced(before: Heap, after: Heap, h: nat, entries: seq<Record>) {
    && |before| == |after| && h < |before| && Tables(after)
    && after == before[h := before[h].(table := after[h].table)]
    && Own(after, h) == entries
  }

  datatype Access = Absent | Value(value: PropertyRecords.Value) | Getter(getter: PropertyRecords.Value)

  function AccessOf(d: Descriptor): Access { if d.Data? then Value(d.value) else Getter(d.getter) }

  datatype Assignment = Done | Refused | Setter(handle: H.Handle)

  /** The nearest object of a chain with the property is `n` steps up. */
  ghost predicate FirstHolder(heap: Heap, h: nat, key: Key, n: nat, d: Descriptor)
    requires Tables(heap)
  {
    && Ancestor(heap, h, n).Some? && Holds(heap, h, key, n) == Some(d)
    && forall m: nat :: m < n ==> Holds(heap, h, key, m) == None
  }

  /** None of the first objects of the chain, `last` steps up and nearer, has the
      property, and the chain goes on beyond the limit. */
  ghost predicate TooDeep(heap: Heap, h: nat, key: Key, last: nat)
    requires Tables(heap)
  {
    Ancestor(heap, h, MAX_PROTOTYPE_DEPTH + 1).Some? && forall m: nat :: m <= last ==> Holds(heap, h, key, m) == None
  }

  /** The property of the `n`-th prototype. */
  function Holds(heap: Heap, h: nat, key: Key, n: nat): Option<Descriptor>
    requires Tables(heap)
  {
    AncestorInside(heap, h, n);
    if Ancestor(heap, h, n).None? then None else Lookup(Own(heap, Ancestor(heap, h, n).value), key)
  }

  lemma {:induction false} AncestorInside(heap: Heap, h: nat, n: nat)
    ensures Ancestor(heap, h, n).Some? ==> Ancestor(heap, h, n).value < |heap|
    decreases n
  {
    if n > 0 && h < |heap| && heap[h].prototype.Some? { AncestorInside(heap, heap[h].prototype.value, n - 1); }
  }

  /** How the nearest property on the chain decides an assignment. */
  predicate Decides(own: bool, d: Descriptor, extensible: bool, outcome: Assignment) {
    if d.Accessor? then outcome == if d.setter.Object? then Setter(d.setter.handle) else Refused
    else if !d.attributes.writable then outcome == Refused
    else if own then outcome == Done
    else outcome == if extensible then Done else Refused
  }

  /** What reading a property answers: what the nearest object with it holds, nothing
      when none has it, an error exactly when the chain is too long to say. */
  ghost predicate Gets(heap: Heap, h: nat, key: Key, r: Result<Access, ObjectError>)
    requires Tables(heap)
  {
    && (r == Ok(Absent) ==> forall n: nat :: Holds(heap, h, key, n) == None)
    && (r.Ok? && r != Ok(Absent) ==>
          exists n: nat, d: Descriptor :: FirstHolder(heap, h, key, n, d) && r.value == AccessOf(d))
    && (r.Err? ==> r == Err(PrototypeChainTooDeep))
    && (r.Err? <==> TooDeep(heap, h, key, MAX_PROTOTYPE_DEPTH))
  }

  lemma FirstUnique(heap: Heap, h: nat, key: Key, n: nat, d: Descriptor, n': nat, d': Descriptor)
    requires Tables(heap) && FirstHolder(heap, h, key, n, d) && FirstHolder(heap, h, key, n', d')
    ensures n == n' && d == d'
  {
    assert Holds(heap, h, key, n) == Some(d) && Holds(heap, h, key, n') == Some(d');
  }

  /** The descriptor an assignment leaves. */
  function Assigned(was: Option<Descriptor>, value: PropertyRecords.Value): Descriptor {
    if was.Some? && was.value.Data? then was.value.(value := value) else Data(DEFAULT, value)
  }

  class Store {
    var heap: Heap

    constructor ()
      ensures Sound() && heap == []
    {
      heap := [];
    }

    ghost predicate Sound()
      reads this
    {
      Tables(heap) && Acyclic(heap)
    }

    /** A new object, whose prototype exists already. */
    method Create(prototype: Option<nat>) returns (h: nat)
      requires Sound() && (prototype.Some? ==> prototype.value < |heap|)
      modifies this
      ensures Sound() && h == |old(heap)| && heap == old(heap) + [ObjectCell(prototype, true, None)]
      ensures Change(old(heap), heap)
    {
      CreatedAcyclic(heap, ObjectCell(prototype, true, None));
      h := |heap|;
      heap := heap + [ObjectCell(prototype, true, None)];
    }

    /** Set the prototype, unless that would make the chain come back to the object. */
    method SetPrototype(h: nat, value: Option<nat>) returns (r: Result<bool, ObjectError>)
      requires Sound() && h < |heap| && (value.Some? ==> value.value < |heap|)
      modifies this
      ensures Sound() && Change(old(heap), heap)
      ensures heap == if r == Ok(true) then old(heap)[h := old(heap)[h].(prototype := value)] else old(heap)
      ensures old(heap)[h].prototype == value ==> r == Ok(true)
      ensures old(heap)[h].prototype != value && !old(heap)[h].extensible ==> r == Ok(false)
      ensures old(heap)[h].prototype != value && old(heap)[h].extensible ==>
                && (r == Ok(false) <==> value.Some? && !Avoids(old(heap), value.value, h, MAX_PROTOTYPE_DEPTH + 1))
                && (r == Err(PrototypeChainTooDeep) <==>
                      && value.Some? && Avoids(old(heap), value.value, h, MAX_PROTOTYPE_DEPTH + 1)
                      && Ancestor(old(heap), value.value, MAX_PROTOTYPE_DEPTH).Some?)
                && (r.Err? ==> r == Err(PrototypeChainTooDeep))
    {
      if heap[h].prototype == value {
        assert heap == heap[h := heap[h].(prototype := value)];
        return Ok(true);
      }
      if !heap[h].extensible { return Ok(false); }
      if value.Some? {
        var walker, depth := value, 0;
        while walker.Some?
          invariant 0 <= depth <= MAX_PROTOTYPE_DEPTH && heap == old(heap)
          invariant walker == Ancestor(heap, value.value, depth) && Avoids(heap, value.value, h, depth)
          invariant walker.Some? ==> walker.value < |heap|
          decreases MAX_PROTOTYPE_DEPTH - depth, walker.Some?
        {
          if walker.value == h {
            assert Ancestor(heap, value.value, depth) == Some(h);
            return Ok(false);
          }
          depth := depth + 1;
          if depth > MAX_PROTOTYPE_DEPTH { return Err(PrototypeChainTooDeep); }
          AncestorSum(heap, value.value, depth - 1, 1);
          OneUp(heap, walker.value);
          walker := heap[walker.value].prototype;
        }
        ChainOverEarly(heap, value.value, h, depth);
        RedirectAcyclic(heap, heap[h := heap[h].(prototype := value)], h, value.value, depth);
      } else {
        CutAcyclic(heap, heap[h := heap[h].(prototype := value)], h);
      }
      heap := heap[h := heap[h].(prototype := value)];
      return Ok(true);
    }

    method PreventExtensions(h: nat)
      requires Sound() && h < |heap|
      modifies this
      ensures Sound() && heap == old(heap)[h := old(heap)[h].(extensible := false)] && Change(old(heap), heap)
    {
      SamePrototypes(heap, heap[h := heap[h].(extensible := false)]);
      heap := heap[h := heap[h].(extensible := false)];
    }

    method GetOwnProperty(h: nat, key: Key) returns (d: Option<Descriptor>)
      requires Sound() && h < |heap|
      ensures d == Lookup(Own(heap, h), key)
    {
      var at := Find(heap[h].table, key);
      return if at.None? then None else Some(heap[h].table.value.cells[at.value].descriptor);
    }

    /** Put a new table in place of an object's. */
    method PutTable(h: nat, table: Option<Table>)
      requires Sound() && h < |heap| && (table.Some? ==> Valid(table.value))
      modifies this
      ensures Sound() && Replaced(old(heap), heap, h, Entries(table))
    {
      SamePrototypes(heap, heap[h := heap[h].(table := table)]);
      heap := heap[h := heap[h].(table := table)];
    }

    method WriteRecord(h: nat, at: nat, d: Descriptor)
      requires Sound() && h < |heap| && at < |Own(heap, h)|
      modifies this
      ensures Sound() && Replaced(old(heap), heap, h, old(Own(heap, h))[at := Record(old(Own(heap, h))[at].key, Stored(d))])
    {
      hide Stored, KeptWhole;
      var t := heap[h].table.value;
      var cells := t.cells[at := Record(t.cells[at].key, Stored(d))];
      assert cells[..t.count] == t.cells[..t.count][at := Record(t.cells[at].key, Stored(d))];
      ReplaceDistinct(t.cells[..t.count], at, Stored(d));
      StoredIff(d);
      PutTable(h, Some(Table(cells, t.count)));
    }

    /** Add a property, change one as its attributes allow, or change nothing. */
    method DefineOwnProperty(h: nat, key: Key, d: Descriptor, room: bool) returns (r: Result<bool, ObjectError>)
      requires Sound() && h < |heap|
      modifies this
      ensures Sound() && Change(old(heap), heap)
      ensures var was := old(Lookup(Own(heap, h), key));
              r == Ok(true) ==> (if was.Some? then IsCompatible(was.value, d) else old(heap)[h].extensible)
      ensures var was := old(Lookup(Own(heap, h), key));
              r == Ok(false) ==> (if was.Some? then !IsCompatible(was.value, d) else !old(heap)[h].extensible)
      ensures r.Err? ==> !room && old(Lookup(Own(heap, h), key)).None?
      ensures r == Ok(true) ==> exists entries :: Updated(old(Own(heap, h)), key, Stored(d), entries) && Replaced(old(heap), heap, h, entries)
      ensures r == Ok(true) ==> (Lookup(Own(heap, h), key) == Some(d) <==> KeptWhole(d))
      ensures r != Ok(true) ==> heap == old(heap)
    {
      hide Lookup, IsCompatible, Stored, KeptWhole;
      StoredIff(d);
      ghost var own := Own(heap, h);
      var at := Find(heap[h].table, key);
      if at.Some? {
        if !IsCompatible(heap[h].table.value.cells[at.value].descriptor, d) { return Ok(false); }
        WriteRecord(h, at.value, d);
        assert Updated(own, key, Stored(d), own[at.value := Record(key, Stored(d))]);
        UpdatedIsMap(own, key, Stored(d), Own(heap, h), key);
        WriteChanges(old(heap), heap, h, key, d, own[at.value := Record(key, Stored(d))]);
        return Ok(true);
      }
      if !heap[h].extensible { return Ok(false); }
      var table := Append(heap[h].table, key, d, room);
      if table.None? { return Err(ArenaFull); }
      PutTable(h, table);
      assert Updated(own, key, Stored(d), own + [Record(key, Stored(d))]);
      UpdatedIsMap(own, key, Stored(d), Own(heap, h), key);
      WriteChanges(old(heap), heap, h, key, d, own + [Record(key, Stored(d))]);
      return Ok(true);
    }

    /** Delete an own property, unless it is permanent. */
    method Delete(h: nat, key: Key) returns (ok: bool)
      requires Sound() && h < |heap|
      modifies this
      ensures Sound() && Change(old(heap), heap)
      ensures var was := old(Lookup(Own(heap, h), key)); ok <==> was.None? || was.value.attributes.configurable
      ensures ok && old(Lookup(Own(heap, h), key)).Some? ==>
        exists entries :: Deleted(old(Own(heap, h)), key, entries) && Replaced(old(heap), heap, h, entries)
      ensures !ok || old(Lookup(Own(heap, h), key)).None? ==> heap == old(heap)
    {
      hide Lookup, Deleted, Replaced, Erases, Change;
      ghost var own := Own(heap, h);
      var at := Find(heap[h].table, key);
      if at.None? {
        SameChanges(heap);
        return true;
      }
      if !heap[h].table.value.cells[at.value].descriptor.attributes.configurable {
        SameChanges(heap);
        return false;
      }
      RemoveRecord(h, at.value, key);
      EraseChanges(old(heap), heap, h, key, own[..at.value] + own[at.value + 1..]);
      return true;
    }

    method RemoveRecord(h: nat, at: nat, ghost key: Key)
      requires Sound() && h < |heap| && at < |Own(heap, h)| && Own(heap, h)[at].key == key
      requires Lookup(Own(heap, h), key).Some? && Lookup(Own(heap, h), key).value.attributes.configurable
      modifies this
      ensures Sound()
      ensures var entries := old(Own(heap, h))[..at] + old(Own(heap, h))[at + 1..];
              && Deleted(old(Own(heap, h)), key, entries) && Replaced(old(heap), heap, h, entries)
              && Erases(old(heap), heap, h, key, entries)
    {
      hide Lookup, Replaced;
      DeletedAt(Own(heap, h), key, at);
      hide Deleted;
      var table := Remove(heap[h].table.value, at);
      hide Valid, Entries;
      PutTable(h, Some(table));
    }

    /** Write a property: in place, or as a new own property the chain does not forbid. */
    method Set(h: nat, key: Key, value: PropertyRecords.Value, room: bool) returns (r: Result<Assignment, ObjectError>)
      requires Sound() && h < |heap|
      modifies this
      ensures Sound() && Change(old(heap), heap)
      ensures r == Ok(Done) ==>
        exists entries :: Updated(old(Own(heap, h)), key, Assigned(old(Lookup(Own(heap, h), key)), value), entries)
                          && Replaced(old(heap), heap, h, entries)
      ensures r != Ok(Done) ==> heap == old(heap)
      ensures r.Ok? ==> forall n: nat, d: Descriptor :: FirstHolder(old(heap), h, key, n, d) ==>
                          Decides(n == 0, d, old(heap)[h].extensible, r.value)
      ensures r.Ok? && (forall n: nat :: Holds(old(heap), h, key, n) == None) ==>
                r.value == if old(heap)[h].extensible then Done else Refused
      ensures r == Err(PrototypeChainTooDeep) <==> TooDeep(old(heap), h, key, MAX_PROTOTYPE_DEPTH + 1)
      ensures r.Err? ==> r == Err(PrototypeChainTooDeep) || (r == Err(ArenaFull) && !room)
    {
      hide Lookup;
      ghost var own := Own(heap, h);
      var at := Find(heap[h].table, key);
      OneUp(heap, h);
      if at.Some? {
        var d := heap[h].table.value.cells[at.value].descriptor;
        HolderHere(heap, h, key, d);
        assert !TooDeep(heap, h, key, MAX_PROTOTYPE_DEPTH + 1);
        if d.Accessor? { return Ok(if d.setter.Object? then Setter(d.setter.handle) else Refused); }
        if !d.attributes.writable { return Ok(Refused); }
        WriteRecord(h, at.value, d.(value := value));
        assert Updated(own, key, d.(value := value), own[at.value := Record(key, d.(value := value))]);
        WriteChanges(old(heap), heap, h, key, d.(value := value), own[at.value := Record(key, d.(value := value))]);
        return Ok(Done);
      }
      var verdict := Inherited(h, key);
      if verdict.Err? { return Err(verdict.error); }
      if verdict.value.Some? { return Ok(verdict.value.value); }
      if !heap[h].extensible { return Ok(Refused); }
      var table := Append(heap[h].table, key, Data(DEFAULT, value), room);
      if table.None? { return Err(ArenaFull); }
      PutTable(h, table);
      assert Updated(own, key, Data(DEFAULT, value), own + [Record(key, Data(DEFAULT, value))]);
      WriteChanges(old(heap), heap, h, key, Data(DEFAULT, value), own + [Record(key, Data(DEFAULT, value))]);
      return Ok(Done);
    }

    /** Whether an inherited property forbids a new own one. */
    method Inherited(h: nat, key: Key) returns (r: Result<Option<Assignment>, ObjectError>)
      requires Sound() && h < |heap| && Lookup(Own(heap, h), key) == None
      ensures r.Err? ==> r == Err(PrototypeChainTooDeep)
      ensures r.Err? <==> TooDeep(heap, h, key, MAX_PROTOTYPE_DEPTH + 1)
      ensures r.Ok? && r.value.Some? ==> exists n: nat, d: Descriptor :: FirstHolder(heap, h, key, n, d)
      ensures r.Ok? && r.value.Some? ==> r.value != Some(Done)
      ensures r.Ok? ==> forall n: nat, d: Descriptor :: FirstHolder(heap, h, key, n, d) ==>
                n > 0 && (if r.value.Some? then d.Accessor? || !d.attributes.writable else d.Data? && d.attributes.writable)
      ensures r.Ok? && r.value.Some? ==> forall n: nat, d: Descriptor :: FirstHolder(heap, h, key, n, d) ==>
                r.value.value == if d.Accessor? && d.setter.Object? then Setter(d.setter.handle) else Refused
    {
      hide Lookup;
      var current, depth := heap[h].prototype, 0;
      OneUp(heap, h);
      assert Holds(heap, h, key, 0) == None;
      while current.Some?
        invariant 0 <= depth <= MAX_PROTOTYPE_DEPTH && current == Ancestor(heap, h, depth + 1)
        invariant current.Some? ==> current.value < |heap|
        invariant forall m: nat :: m <= depth ==> Holds(heap, h, key, m) == None
        decreases MAX_PROTOTYPE_DEPTH - depth, current.Some?
      {
        var found := GetOwnProperty(current.value, key);
        if found.Some? {
          var d := found.value;
          HolderIs(heap, h, key, depth + 1, d);
          if d.Accessor? { return Ok(Some(if d.setter.Object? then Setter(d.setter.handle) else Refused)); }
          if !d.attributes.writable { return Ok(Some(Refused)); }
          return Ok(None);
        }
        depth := depth + 1;
        AncestorSum(heap, h, depth - 1, 1);
        if depth > MAX_PROTOTYPE_DEPTH { return Err(PrototypeChainTooDeep); }
        AncestorSum(heap, h, depth, 1);
        OneUp(heap, current.value);
        current := heap[current.value].prototype;
      }
      ChainOver(heap, h, key, depth);
      AncestorSum(heap, h, depth + 1, MAX_PROTOTYPE_DEPTH - depth);
      r := Ok(None);
    }

    /** Read a property along the prototype chain. */
    method Get(h: nat, key: Key) returns (r: Result<Access, ObjectError>)
      requires Sound() && h < |heap|
      ensures Gets(heap, h, key, r)
    {
      hide Lookup, Own, Holds, Gets;
      var current, depth := h, 0;
      while true
        invariant 0 <= depth <= MAX_PROTOTYPE_DEPTH && current < |heap| && Ancestor(heap, h, depth) == Some(current)
        invariant forall m: nat :: m < depth ==> Holds(heap, h, key, m) == None
        decreases MAX_PROTOTYPE_DEPTH - depth
      {
        var d := GetOwnProperty(current, key);
        HeldThere(heap, h, key, depth, current);
        if d.Some? {
          GetsFound(heap, h, key, depth, d.value);
          return Ok(AccessOf(d.value));
        }
        AncestorSum(heap, h, depth, 1);
        OneUp(heap, current);
        if heap[current].prototype.None? {
          GetsNothing(heap, h, key, depth);
          return Ok(Absent);
        }
        depth := depth + 1;
        if depth > MAX_PROTOTYPE_DEPTH {
          GetsError(heap, h, key);
          return Err(PrototypeChainTooDeep);
        }
        current := heap[current].prototype.value;
      }
    }
  }

  lemma HeldThere(heap: Heap, h: nat, key: Key, n: nat, there: nat)
    requires Tables(heap) && there < |heap| && Ancestor(heap, h, n) == Some(there)
    ensures Holds(heap, h, key, n) == Lookup(Own(heap, there), key)
  {
    hide Lookup, Own;
  }

  lemma GetsFound(heap: Heap, h: nat, key: Key, n: nat, d: Descriptor)
    requires Tables(heap) && n <= MAX_PROTOTYPE_DEPTH && Ancestor(heap, h, n).Some? && Holds(heap, h, key, n) == Some(d)
    requires forall m: nat :: m < n ==> Holds(heap, h, key, m) == None
    ensures Gets(heap, h, key, Ok(AccessOf(d)))
  {
    hide Holds;
    assert FirstHolder(heap, h, key, n, d);
  }

  lemma GetsNothing(heap: Heap, h: nat, key: Key, depth: nat)
    requires Tables(heap) && depth <= MAX_PROTOTYPE_DEPTH
    requires Ancestor(heap, h, depth + 1).None? && Holds(heap, h, key, depth) == None
    requires forall m: nat :: m < depth ==> Holds(heap, h, key, m) == None
    ensures Gets(heap, h, key, Ok(Absent))
  {
    ChainOver(heap, h, key, depth);
    AncestorSum(heap, h, depth + 1, MAX_PROTOTYPE_DEPTH - depth);
    hide Holds;
  }

  lemma GetsError(heap: Heap, h: nat, key: Key)
    requires Tables(heap) && Ancestor(heap, h, MAX_PROTOTYPE_DEPTH + 1).Some?
    requires forall m: nat :: m <= MAX_PROTOTYPE_DEPTH ==> Holds(heap, h, key, m) == None
    ensures Gets(heap, h, key, Err(PrototypeChainTooDeep))
  {
    hide Holds;
  }

  lemma HolderIs(heap: Heap, h: nat, key: Key, n: nat, d: Descriptor)
    requires Tables(heap) && Ancestor(heap, h, n).Some? && Holds(heap, h, key, n) == Some(d)
    requires forall m: nat :: m < n ==> Holds(heap, h, key, m) == None
    ensures FirstHolder(heap, h, key, n, d)
    ensures forall n': nat, d': Descriptor :: FirstHolder(heap, h, key, n', d') ==> n' == n && d' == d
  {
    hide Holds;
    forall n': nat, d': Descriptor | FirstHolder(heap, h, key, n', d') ensures n' == n && d' == d {
      FirstUnique(heap, h, key, n, d, n', d');
    }
  }

  lemma HolderHere(heap: Heap, h: nat, key: Key, d: Descriptor)
    requires Tables(heap) && h < |heap| && Lookup(Own(heap, h), key) == Some(d)
    ensures Holds(heap, h, key, 0) == Some(d)
    ensures forall n: nat, d': Descriptor :: FirstHolder(heap, h, key, n, d') ==> n == 0 && d' == d
  {
    hide Lookup;
    OneUp(heap, h);
    HolderIs(heap, h, key, 0, d);
  }

  /** A chain that has ended meets nothing more. */
  lemma ChainOverEarly(heap: Heap, h: nat, target: nat, depth: nat)
    requires Ancestor(heap, h, depth).None? && Avoids(heap, h, target, depth) && depth <= MAX_PROTOTYPE_DEPTH
    ensures Avoids(heap, h, target, MAX_PROTOTYPE_DEPTH + 1) && Ancestor(heap, h, MAX_PROTOTYPE_DEPTH).None?
  {
    forall i | 0 <= i <= MAX_PROTOTYPE_DEPTH ensures Ancestor(heap, h, i) != Some(target) {
      if i >= depth { AncestorSum(heap, h, depth, i - depth); }
    }
    AncestorSum(heap, h, depth, MAX_PROTOTYPE_DEPTH - depth);
  }

  lemma OneUp(heap: Heap, h: nat)
    requires h < |heap|
    ensures Ancestor(heap, h, 0) == Some(h)
    ensures heap[h].prototype.None? ==> Ancestor(heap, h, 1).None?
    ensures heap[h].prototype.Some? && heap[h].prototype.value < |heap| ==> Ancestor(heap, h, 1) == heap[h].prototype
  {}

  /** Past the end of the chain there is nothing to hold a property. */
  lemma ChainOver(heap: Heap, h: nat, key: Key, depth: nat)
    requires Tables(heap) && Ancestor(heap, h, depth + 1).None? && Holds(heap, h, key, depth) == None
    requires forall m: nat :: m < depth ==> Holds(heap, h, key, m) == None
    ensures forall n: nat :: Holds(heap, h, key, n) == None
  {
    forall n: nat ensures Holds(heap, h, key, n) == None {
      if n > depth { AncestorSum(heap, h, depth + 1, n - depth - 1); }
    }
  }

  // ----- updates as a map -----

  /** `after` is `before` with the property defined: in its place, or last. */
  ghost predicate Updated(before: seq<Record>, key: Key, d: Descriptor, after: seq<Record>) {
    || (exists i :: 0 <= i < |before| && before[i].key == key && after == before[i := Record(key, d)])
    || ((forall i :: 0 <= i < |before| ==> before[i].key != key) && after == before + [Record(key, d)])
  }

  ghost predicate Deleted(before: seq<Record>, key: Key, after: seq<Record>) {
    exists i :: 0 <= i < |before| && before[i].key == key && after == before[..i] + before[i + 1..]
  }

  lemma DeletedAt(entries: seq<Record>, key: Key, at: nat)
    requires at < |entries| && entries[at].key == key
    ensures Deleted(entries, key, entries[..at] + entries[at + 1..])
  {}

  /** Defining a property changes that entry of the map, and no other. */
  lemma UpdatedIsMap(before: seq<Record>, key: Key, d: Descriptor, after: seq<Record>, other: Key)
    requires Distinct(before) && Updated(before, key, d, after)
    ensures Lookup(after, other) == if other == key then Some(d) else Lookup(before, other)
  {
    hide Lookup;
    if exists i :: 0 <= i < |before| && before[i].key == key && after == before[i := Record(key, d)] {
      var i :| 0 <= i < |before| && before[i].key == key && after == before[i := Record(key, d)];
      LookupReplaced(before, i, d, other);
    } else {
      LookupAppended(before, Record(key, d), other);
    }
  }

  // ----- one operation after another -----

  /** An own property is what reading answers: a value, or the getter to call. */
  lemma OwnIsGot(heap: Heap, h: nat, key: Key, d: Descriptor, r: Result<Access, ObjectError>)
    requires Tables(heap) && h < |heap| && Lookup(Own(heap, h), key) == Some(d) && Gets(heap, h, key, r)
    ensures d.Data? ==> r == Ok(Value(d.value))
    ensures d.Accessor? ==> r == Ok(Getter(d.getter))
  {
    HolderHere(heap, h, key, d);
    hide Lookup, Own, Holds;
    assert Holds(heap, h, key, 0) == Some(d);
  }

  /** Reading what was just defined gives the value defined, or the getter. */
  lemma DefinedIsGot(before: Heap, after: Heap, h: nat, key: Key, d: Descriptor, entries: seq<Record>, r: Result<Access, ObjectError>)
    requires Tables(before) && h < |before| && Updated(Own(before, h), key, Stored(d), entries)
    requires Replaced(before, after, h, entries) && Gets(after, h, key, r)
    ensures d.Data? ==> r == Ok(Value(d.value))
    ensures d.Accessor? ==> r == Ok(Getter(d.getter))
  {
    UpdatedIsMap(Own(before, h), key, Stored(d), entries, key);
    OwnIsGot(after, h, key, Stored(d), r);
  }

  /** After an assignment is done, reading gives the value assigned; a property made by
      it is open in every way, and one that was there keeps its attributes; and the same
      assignment is done again when it is asked for again. */
  lemma AssignedIsGot(before: Heap, after: Heap, h: nat, key: Key, value: PropertyRecords.Value, entries: seq<Record>,
                      r: Result<Access, ObjectError>, again: Assignment)
    requires Tables(before) && h < |before|
    requires Updated(Own(before, h), key, Assigned(Lookup(Own(before, h), key), value), entries)
    requires Replaced(before, after, h, entries) && Gets(after, h, key, r)
    requires forall n: nat, d: Descriptor :: FirstHolder(before, h, key, n, d) ==> Decides(n == 0, d, before[h].extensible, Done)
    requires forall n: nat, d: Descriptor :: FirstHolder(after, h, key, n, d) ==> Decides(n == 0, d, after[h].extensible, again)
    ensures r == Ok(Value(value)) && again == Done
    ensures var was, now := Lookup(Own(before, h), key), Lookup(Own(after, h), key);
            && now.Some? && now.value.Data? && now.value.value == value
            && now.value.attributes == if was.Some? then was.value.attributes else Attributes(true, true, true)
  {
    var was := Lookup(Own(before, h), key);
    var d := Assigned(was, value);
    UpdatedIsMap(Own(before, h), key, d, entries, key);
    if was.Some? {
      FirstHere(before, h, key, was.value);
      assert Decides(true, was.value, before[h].extensible, Done);
    }
    OwnIsGot(after, h, key, d, r);
    FirstHere(after, h, key, d);
    hide Lookup, Own;
    assert Decides(true, d, after[h].extensible, again);
  }

  lemma FirstHere(heap: Heap, h: nat, key: Key, d: Descriptor)
    requires Tables(heap) && h < |heap| && Lookup(Own(heap, h), key) == Some(d)
    ensures FirstHolder(heap, h, key, 0, d)
  {
    OneUp(heap, h);
  }

  lemma DeletedIsMap(before: seq<Record>, key: Key, after: seq<Record>, other: Key)
    requires Distinct(before) && Deleted(before, key, after)
    ensures Lookup(after, other) == if other == key then None else Lookup(before, other)
  {
    hide Lookup;
    var i :| 0 <= i < |before| && before[i].key == key && after == before[..i] + before[i + 1..];
    LookupRemoved(before, i, other);
  }

  // ----- whole runs -----

  /** What a redefinition or an assignment may put in place of a property. */
  predicate Admitted(was: Descriptor, d: Descriptor) {
    IsCompatible(was, d) || (was.Data? && was.attributes.writable && d.Data? && d.attributes == was.attributes)
  }

  /** One property of one object defined or written. */
  ghost predicate Writes(before: Heap, after: Heap, h: nat, key: Key, d: Descriptor, entries: seq<Record>) {
    && Tables(before) && h < |before|
    && Updated(Own(before, h), key, Stored(d), entries) && Replaced(before, after, h, entries)
    && (Lookup(Own(before, h), key).Some? ==> Admitted(Lookup(Own(before, h), key).value, d))
    && (Lookup(Own(before, h), key).None? ==> before[h].extensible)
  }

  ghost predicate Erases(before: Heap, after: Heap, h: nat, key: Key, entries: seq<Record>) {
    && Tables(before) && h < |before|
    && Deleted(Own(before, h), key, entries) && Replaced(before, after, h, entries)
    && Lookup(Own(before, h), key).Some? && Lookup(Own(before, h), key).value.attributes.configurable
  }

  /** Objects made, prototypes and extensibility changed, no property touched, and
      nothing of an object that is not extensible. */
  ghost predicate Reshapes(before: Heap, after: Heap) {
    && |before| <= |after|
    && forall i :: 0 <= i < |before| ==> after[i].table == before[i].table && (!before[i].extensible ==> after[i] == before[i])
  }

  ghost predicate Change(before: Heap, after: Heap) {
    && Tables(before) && Tables(after)
    && (|| Reshapes(before, after)
        || (exists h: nat, key, d, entries :: Writes(before, after, h, key, d, entries))
        || (exists h: nat, key, entries :: Erases(before, after, h, key, entries)))
  }

  lemma WriteChanges(before: Heap, after: Heap, h: nat, key: Key, d: Descriptor, entries: seq<Record>)
    requires Writes(before, after, h, key, d, entries)
    ensures Change(before, after)
  {}

  lemma SameChanges(heap: Heap)
    requires Tables(heap)
    ensures Change(heap, heap)
  {}

  lemma EraseChanges(before: Heap, after: Heap, h: nat, key: Key, entries: seq<Record>)
    requires Erases(before, after, h, key, entries)
    ensures Change(before, after)
  {}

  /** `later` is what became of a permanent property `d`. */
  ghost predicate Kept(d: Descriptor, later: Option<Descriptor>) { later.Some? && Permanent(d, later.value) }

  lemma AdmittedKeeps(was: Descriptor, d: Descriptor)
    requires Admitted(was, d) && !was.attributes.configurable && KeptWhole(was)
    ensures Permanent(was, Stored(d))
  {
    hide IsCompatible, SameButZero;
    if IsCompatible(was, d) {
      AdmittedIff(was, d);
      StoredPermanent(was, d);
    }
  }

  /** What a table holds is what records give back. */
  lemma LookupStored(heap: Heap, o: nat, k: Key)
    requires Tables(heap) && o < |heap| && Lookup(Own(heap, o), k).Some?
    ensures KeptWhole(Lookup(Own(heap, o), k).value)
  {
    hide KeptWhole;
    StoredLookup(Own(heap, o), k);
  }

  lemma {:induction false} StoredLookup(entries: seq<Record>, k: Key)
    requires AllStored(entries) && Lookup(entries, k).Some?
    ensures KeptWhole(Lookup(entries, k).value)
    decreases |entries|
  {
    hide KeptWhole;
    if entries[|entries| - 1].key != k { StoredLookup(entries[..|entries| - 1], k); }
  }

  lemma WritesKeep(before: Heap, after: Heap, h: nat, key: Key, d: Descriptor, entries: seq<Record>, o: nat, k: Key)
    requires Writes(before, after, h, key, d, entries) && o < |before| && Lookup(Own(before, o), k).Some?
    requires !Lookup(Own(before, o), k).value.attributes.configurable
    ensures Kept(Lookup(Own(before, o), k).value, Lookup(Own(after, o), k))
  {
    hide Lookup, Updated, Admitted, Permanent, KeptWhole, Stored;
    PermanentItself(Lookup(Own(before, o), k).value);
    if o == h {
      UpdatedIsMap(Own(before, h), key, Stored(d), entries, k);
      if k == key {
        LookupStored(before, o, k);
        AdmittedKeeps(Lookup(Own(before, o), k).value, d);
      }
    }
  }

  lemma PermanentItself(d: Descriptor)
    requires !d.attributes.configurable
    ensures Permanent(d, d)
  {}

  lemma ErasesKeep(before: Heap, after: Heap, h: nat, key: Key, entries: seq<Record>, o: nat, k: Key)
    requires Erases(before, after, h, key, entries) && o < |before| && Lookup(Own(before, o), k).Some?
    requires !Lookup(Own(before, o), k).value.attributes.configurable
    ensures Kept(Lookup(Own(before, o), k).value, Lookup(Own(after, o), k))
  {
    hide Lookup, Deleted, Permanent;
    PermanentItself(Lookup(Own(before, o), k).value);
    if o == h { DeletedIsMap(Own(before, h), key, entries, k); }
  }

  lemma ChangeKeeps(before: Heap, after: Heap, o: nat, k: Key)
    requires Change(before, after) && o < |before| && Lookup(Own(before, o), k).Some?
    requires !Lookup(Own(before, o), k).value.attributes.configurable
    ensures o < |after| && Kept(Lookup(Own(before, o), k).value, Lookup(Own(after, o), k))
  {
    hide Lookup, Writes, Erases, Permanent;
    if Reshapes(before, after) {
      PermanentItself(Lookup(Own(before, o), k).value);
    } else if exists h: nat, key, d, entries :: Writes(before, after, h, key, d, entries) {
      var h: nat, key, d, entries :| Writes(before, after, h, key, d, entries);
      WritesKeep(before, after, h, key, d, entries, o, k);
      SameLength(before, after, h, key, d, entries);
    } else {
      var h: nat, key, entries :| Erases(before, after, h, key, entries);
      ErasesKeep(before, after, h, key, entries, o, k);
      ErasedLength(before, after, h, key, entries);
    }
  }

  lemma SameLength(before: Heap, after: Heap, h: nat, key: Key, d: Descriptor, entries: seq<Record>)
    requires Writes(before, after, h, key, d, entries)
    ensures |before| == |after|
  {}

  lemma ErasedLength(before: Heap, after: Heap, h: nat, key: Key, entries: seq<Record>)
    requires Erases(before, after, h, key, entries)
    ensures |before| == |after|
  {}

  ghost predicate Run(heaps: seq<Heap>) {
    heaps != [] && Tables(heaps[0]) && forall i :: 0 <= i < |heaps| - 1 ==> Change(heaps[i], heaps[i + 1])
  }

  /** Over any run, a property that is not configurable stays, and what was made
      permanent about it stays with it. */
  lemma {:induction false} PermanentStays(heaps: seq<Heap>, o: nat, k: Key, n: nat)
    requires Run(heaps) && n < |heaps| && o < |heaps[0]| && Lookup(Own(heaps[0], o), k).Some?
    requires !Lookup(Own(heaps[0], o), k).value.attributes.configurable
    ensures Tables(heaps[n]) && o < |heaps[n]| && Kept(Lookup(Own(heaps[0], o), k).value, Lookup(Own(heaps[n], o), k))
    decreases n
  {
    hide Lookup, Permanent;
    PermanentItself(Lookup(Own(heaps[0], o), k).value);
    if n > 0 {
      PermanentStays(heaps, o, k, n - 1);
      assert Change(heaps[n - 1], heaps[n - 1 + 1]);
      StillPermanent(Lookup(Own(heaps[0], o), k).value, Lookup(Own(heaps[n - 1], o), k));
      ChangeKeeps(heaps[n - 1], heaps[n], o, k);
      KeptOn(Lookup(Own(heaps[0], o), k).value, Lookup(Own(heaps[n - 1], o), k), Lookup(Own(heaps[n], o), k));
    }
  }

  lemma StillPermanent(d: Descriptor, later: Option<Descriptor>)
    requires Kept(d, later) && !d.attributes.configurable
    ensures !later.value.attributes.configurable
  {}

  lemma KeptOn(a: Descriptor, b: Option<Descriptor>, c: Option<Descriptor>)
    requires Kept(a, b) && Kept(b.value, c)
    ensures Kept(a, c)
  {
    hide Permanent;
    PermanentOn(a, b.value, c.value);
  }

  /** Nothing about a closed object can be added: it stays closed, under the same
      prototype, and every key it has it had before. */
  ghost predicate StillClosed(before: Heap, after: Heap, o: nat) {
    && Tables(before) && Tables(after) && o < |before| <= |after|
    && !after[o].extensible && after[o].prototype == before[o].prototype
    && forall k :: Lookup(Own(after, o), k).Some? ==> Lookup(Own(before, o), k).Some?
  }

  lemma WritesClosed(before: Heap, after: Heap, h: nat, key: Key, d: Descriptor, entries: seq<Record>, o: nat)
    requires Writes(before, after, h, key, d, entries) && Tables(after) && o < |before| && !before[o].extensible
    ensures StillClosed(before, after, o)
  {
    hide Lookup, Updated, Admitted, Stored;
    if o == h {
      forall k | Lookup(Own(after, o), k).Some? ensures Lookup(Own(before, o), k).Some? {
        UpdatedIsMap(Own(before, h), key, Stored(d), entries, k);
      }
    }
  }

  lemma ErasesClosed(before: Heap, after: Heap, h: nat, key: Key, entries: seq<Record>, o: nat)
    requires Erases(before, after, h, key, entries) && Tables(after) && o < |before| && !before[o].extensible
    ensures StillClosed(before, after, o)
  {
    hide Lookup, Deleted;
    if o == h {
      forall k | Lookup(Own(after, o), k).Some? ensures Lookup(Own(before, o), k).Some? {
        DeletedIsMap(Own(before, h), key, entries, k);
      }
    }
  }

  lemma ChangeClosed(before: Heap, after: Heap, o: nat)
    requires Change(before, after) && o < |before| && !before[o].extensible
    ensures StillClosed(before, after, o)
  {
    hide Lookup, Writes, Erases, StillClosed;
    if Reshapes(before, after) {
      ReshapesClosed(before, after, o);
    } else if exists h: nat, key, d, entries :: Writes(before, after, h, key, d, entries) {
      var h: nat, key, d, entries :| Writes(before, after, h, key, d, entries);
      WritesClosed(before, after, h, key, d, entries, o);
    } else {
      var h: nat, key, entries :| Erases(before, after, h, key, entries);
      ErasesClosed(before, after, h, key, entries, o);
    }
  }

  lemma ReshapesClosed(before: Heap, after: Heap, o: nat)
    requires Tables(before) && Tables(after) && Reshapes(before, after) && o < |before| && !before[o].extensible
    ensures StillClosed(before, after, o)
  {
    hide Lookup;
  }

  /** Over any run, an object that is not extensible gains no key, keeps its prototype
      and never becomes extensible again. */
  lemma {:induction false} ClosedStays(heaps: seq<Heap>, o: nat, n: nat)
    requires Run(heaps) && n < |heaps| && o < |heaps[0]| && !heaps[0][o].extensible
    ensures StillClosed(heaps[0], heaps[n], o)
    decreases n
  {
    hide Lookup;
    if n > 0 {
      ClosedStays(heaps, o, n - 1);
      assert Change(heaps[n - 1], heaps[n - 1 + 1]);
      ChangeClosed(heaps[n - 1], heaps[n], o);
    }
  }
}
