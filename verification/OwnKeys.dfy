/** The order of an object's own keys. */
module OwnKeyOrder {
  import opened Words
  import opened PropertyRecords
  import opened PropertyTables
  import opened Objects

  predicate Ascending(indices: seq<u32>) { forall i, j :: 0 <= i < j < |indices| ==> indices[i] < indices[j] }

  ghost predicate HasKey(entries: seq<Record>, key: Key) { exists i :: 0 <= i < |entries| && entries[i].key == key }

  /** The keys of one sort, oldest first. */
  function Named(entries: seq<Record>, symbols: bool): seq<Key> {
    if entries == [] then []
    else
      var last := entries[|entries| - 1].key;
      Named(entries[..|entries| - 1], symbols) + if (if symbols then last.Symbol? else last.Name?) then [last] else []
  }

  function Indices(values: seq<u32>): (keys: seq<Key>)
    ensures |keys| == |values|
  {
    seq(|values|, i requires 0 <= i < |values| => Index(values[i]))
  }

  /** The least element index above `after`, or the least of all. */
  method NextIndex(entries: seq<Record>, after: Option<u32>) returns (next: Option<u32>)
    ensures next.Some? ==> HasKey(entries, Index(next.value)) && (after.Some? ==> after.value < next.value)
    ensures forall v: u32 :: HasKey(entries, Index(v)) && (after.Some? ==> after.value < v) ==> next.Some? && next.value <= v
  {
    next := None;
    var index := 0;
    while index < |entries|
      invariant 0 <= index <= |entries|
      invariant next.Some? ==> HasKey(entries, Index(next.value)) && (after.Some? ==> after.value < next.value)
      invariant forall i :: 0 <= i < index && entries[i].key.Index? && (after.Some? ==> after.value < entries[i].key.value) ==>
                  next.Some? && next.value <= entries[i].key.value
    {
      var key := entries[index].key;
      if key.Index? {
        var later := after.None? || key.value > after.value;
        var better := next.None? || key.value < next.value;
        if later && better {
          assert HasKey(entries, Index(key.value));
          next := Some(key.value);
        }
      }
      index := index + 1;
    }
  }

  /** The element indices of the entries, each once, in ascending order. */
  ghost predicate AscendingIndices(entries: seq<Record>, values: seq<u32>) {
    Ascending(values) && forall v: u32 :: v in values <==> HasKey(entries, Index(v))
  }

  method CollectIndices(entries: seq<Record>, limit: nat) returns (values: seq<u32>, full: bool)
    ensures |values| <= limit
    ensures !full ==> AscendingIndices(entries, values)
    ensures full ==> |values| == limit && Ascending(values) && exists v: u32 :: v !in values && HasKey(entries, Index(v))
    ensures forall v: u32 :: v in values ==> HasKey(entries, Index(v))
  {
    values := [];
    var last: Option<u32> := None;
    while true
      invariant |values| <= limit && Ascending(values)
      invariant forall v: u32 :: v in values ==> HasKey(entries, Index(v))
      invariant forall v: u32 :: v in values ==> last.Some? && v <= last.value
      invariant forall v: u32 :: HasKey(entries, Index(v)) && (last.None? || v <= last.value) && last.Some? ==> v in values
      decreases if last.None? then 0x1_0000_0000 else U32_MAX - last.value
    {
      var next := NextIndex(entries, last);
      if next.None? { return values, false; }
      if |values| >= limit {
        assert next.value !in values;
        return values, true;
      }
      assert forall i :: 0 <= i < |values| ==> values[i] in values;
      values := values + [next.value];
      last := next;
    }
  }

  /** Collect the keys of one sort, oldest first, until room runs out. */
  method CollectNamed(entries: seq<Record>, symbols: bool, limit: nat) returns (keys: seq<Key>, full: bool)
    ensures !full ==> keys == Named(entries, symbols) && |keys| <= limit
    ensures full ==> |Named(entries, symbols)| > limit
  {
    keys := [];
    var index := 0;
    while index < |entries|
      invariant 0 <= index <= |entries| && keys == Named(entries[..index], symbols) && |keys| <= limit
    {
      var key := entries[index].key;
      assert entries[..index + 1][..index] == entries[..index];
      if if symbols then key.Symbol? else key.Name? {
        if |keys| >= limit {
          NamedGrows(entries, symbols, index + 1);
          return keys, true;
        }
        keys := keys + [key];
      }
      index := index + 1;
    }
    assert entries[..index] == entries;
    full := false;
  }

  lemma {:induction false} NamedGrows(entries: seq<Record>, symbols: bool, k: nat)
    requires k <= |entries|
    ensures |Named(entries[..k], symbols)| <= |Named(entries, symbols)|
    decreases |entries|
  {
    if k == |entries| {
      assert entries[..k] == entries;
    } else {
      NamedGrows(entries[..|entries| - 1], symbols, k);
      assert entries[..|entries| - 1][..k] == entries[..k];
    }
  }

  /** Three runs of keys: indices by value, then names and then symbols by age. */
  method OwnKeys(t: Option<Table>, limit: nat) returns (r: Result<seq<Key>, ObjectError>, ghost values: seq<u32>)
    requires t.Some? ==> Valid(t.value)
    ensures r.Ok? ==> EachOnce(Entries(t), r.value) && SortsInOrder(r.value) && AgesInOrder(Entries(t), r.value)
    ensures r.Ok? ==> AscendingIndices(Entries(t), values)
    ensures r.Ok? ==> r.value == Indices(values) + Named(Entries(t), false) + Named(Entries(t), true)
    ensures r.Ok? ==> |r.value| == |Entries(t)|
    ensures r.Err? ==> r == Err(TooManyKeys)
    ensures r.Ok? <==> |Entries(t)| <= limit
  {
    hide Named, AscendingIndices, Indices, CountIndices, EachOnce, SortsInOrder, AgesInOrder;
    if t.None? {
      NoKeys();
      NoneToOrder();
      return Ok([]), [];
    }
    var entries := t.value.cells[..t.value.count];
    var found, full := CollectIndices(entries, limit);
    KeyCounts(entries);
    if full {
      FewerIndices(entries, found);
      return Err(TooManyKeys), found;
    }
    AllIndices(entries, found);
    var names, more := CollectNamed(entries, false, limit - |found|);
    if more { return Err(TooManyKeys), found; }
    var symbols, most := CollectNamed(entries, true, limit - |found| - |names|);
    if most { return Err(TooManyKeys), found; }
    KeysOrdered(entries, found);
    return Ok(Indices(found) + names + symbols), found;
  }

  // ----- the order, of the keys alone -----

  /** The keys of the entries, each in one place. */
  ghost predicate EachOnce(entries: seq<Record>, keys: seq<Key>) {
    && (forall key :: key in keys <==> HasKey(entries, key))
    && forall i, j :: 0 <= i < j < |keys| ==> keys[i] != keys[j]
  }

  /** Indices first, the smaller before the larger; then names; symbols last. */
  ghost predicate SortsInOrder(keys: seq<Key>) {
    forall i, j :: 0 <= i < j < |keys| ==>
      && (keys[j].Index? ==> keys[i].Index? && keys[i].value < keys[j].value)
      && (keys[j].Name? ==> !keys[i].Symbol?)
  }

  /** Of two names, and of two symbols, the one added first comes first. */
  ghost predicate AgesInOrder(entries: seq<Record>, keys: seq<Key>) {
    forall i, j, a, b :: 0 <= i < j < |keys| && OneSort(keys[i], keys[j]) && StandsAt(entries, keys[i], a) && StandsAt(entries, keys[j], b)
      ==> a < b
  }

  predicate OneSort(x: Key, y: Key) { (x.Name? && y.Name?) || (x.Symbol? && y.Symbol?) }

  predicate StandsAt(entries: seq<Record>, key: Key, a: int) { 0 <= a < |entries| && entries[a].key == key }

  lemma NoneToOrder()
    ensures EachOnce([], []) && SortsInOrder([]) && AgesInOrder([], [])
  {}

  /** `Named` selects the names, or the symbols, all of them. */
  lemma {:induction false} NamedHas(entries: seq<Record>, symbols: bool, key: Key)
    ensures key in Named(entries, symbols) <==> HasKey(entries, key) && if symbols then key.Symbol? else key.Name?
  {
    if entries != [] {
      var last := |entries| - 1;
      NamedHas(entries[..last], symbols, key);
      HasKeyLast(entries, key);
    }
  }

  lemma HasKeyLast(entries: seq<Record>, key: Key)
    requires entries != []
    ensures HasKey(entries, key) <==> HasKey(entries[..|entries| - 1], key) || entries[|entries| - 1].key == key
  {
    var last := |entries| - 1;
    if HasKey(entries, key) && entries[last].key != key {
      var i :| 0 <= i < |entries| && entries[i].key == key;
      assert entries[..last][i].key == key;
    }
    if HasKey(entries[..last], key) {
      var i :| 0 <= i < last && entries[..last][i].key == key;
      assert entries[i].key == key;
    }
  }

  /** It keeps the order of the entries. */
  lemma {:induction false} NamedInOrder(entries: seq<Record>, symbols: bool, i: nat, j: nat, a: int, b: int)
    requires Distinct(entries) && i < j < |Named(entries, symbols)|
    requires StandsAt(entries, Named(entries, symbols)[i], a) && StandsAt(entries, Named(entries, symbols)[j], b)
    ensures a < b
  {
    var last := |entries| - 1;
    var earlier, all := Named(entries[..last], symbols), Named(entries, symbols);
    assert all[i] in earlier by { assert all[i] == earlier[i]; }
    NamedHas(entries[..last], symbols, all[i]);
    var at :| 0 <= at < last && entries[..last][at].key == all[i];
    assert entries[at].key == entries[a].key && at == a;
    if j < |earlier| {
      assert all[j] == earlier[j] && all[j] in earlier;
      NamedHas(entries[..last], symbols, all[j]);
      var bt :| 0 <= bt < last && entries[..last][bt].key == all[j];
      assert entries[bt].key == entries[b].key && bt == b;
      NamedInOrder(entries[..last], symbols, i, j, a, b);
    } else {
      assert all[j] == entries[last].key && b == last;
    }
  }

  lemma NamedDistinct(entries: seq<Record>, symbols: bool, i: nat, j: nat)
    requires Distinct(entries) && i < j < |Named(entries, symbols)|
    ensures Named(entries, symbols)[i] != Named(entries, symbols)[j]
  {
    var keys := Named(entries, symbols);
    NamedHas(entries, symbols, keys[i]);
    NamedHas(entries, symbols, keys[j]);
    var a :| 0 <= a < |entries| && entries[a].key == keys[i];
    var b :| 0 <= b < |entries| && entries[b].key == keys[j];
    NamedInOrder(entries, symbols, i, j, a, b);
  }

  /** The three runs one after another are in order. */
  lemma KeysOrdered(entries: seq<Record>, values: seq<u32>)
    requires Distinct(entries) && AscendingIndices(entries, values)
    ensures var keys := Indices(values) + Named(entries, false) + Named(entries, true);
            EachOnce(entries, keys) && SortsInOrder(keys) && AgesInOrder(entries, keys)
  {
    hide Named, HasKey, Distinct;
    var indices, names, symbols := Indices(values), Named(entries, false), Named(entries, true);
    var keys := indices + names + symbols;
    AllListed(entries, values);
    forall i | 0 <= i < |keys|
      ensures keys[i].Index? <==> i < |indices|
      ensures keys[i].Name? <==> |indices| <= i < |indices| + |names|
    {
      if |indices| <= i < |indices| + |names| {
        assert keys[i] == names[i - |indices|];
        NamedHas(entries, false, keys[i]);
      } else if |indices| + |names| <= i {
        assert keys[i] == symbols[i - |indices| - |names|];
        NamedHas(entries, true, keys[i]);
      }
    }
    forall i, j | 0 <= i < j < |keys| ensures keys[i] != keys[j] {
      KeysDiffer(entries, values, i, j);
    }
    forall i, j, a, b | 0 <= i < j < |keys| && OneSort(keys[i], keys[j]) && StandsAt(entries, keys[i], a) && StandsAt(entries, keys[j], b)
      ensures a < b
    {
      if keys[i].Name? {
        NamedInOrder(entries, false, i - |indices|, j - |indices|, a, b);
      } else {
        NamedInOrder(entries, true, i - |indices| - |names|, j - |indices| - |names|, a, b);
      }
    }
  }

  lemma KeysDiffer(entries: seq<Record>, values: seq<u32>, i: nat, j: nat)
    requires Distinct(entries) && AscendingIndices(entries, values)
    requires i < j < |Indices(values)| + |Named(entries, false)| + |Named(entries, true)|
    ensures var keys := Indices(values) + Named(entries, false) + Named(entries, true); keys[i] != keys[j]
  {
    hide Named, HasKey, Distinct;
    var indices, names, symbols := Indices(values), Named(entries, false), Named(entries, true);
    var keys := indices + names + symbols;
    if |indices| <= i < |indices| + |names| {
      assert keys[i] == names[i - |indices|];
      NamedHas(entries, false, keys[i]);
    }
    if |indices| <= j < |indices| + |names| {
      assert keys[j] == names[j - |indices|];
      NamedHas(entries, false, keys[j]);
      if |indices| <= i { NamedDistinct(entries, false, i - |indices|, j - |indices|); }
    }
    if |indices| + |names| <= j {
      assert keys[j] == symbols[j - |indices| - |names|];
      NamedHas(entries, true, keys[j]);
      if |indices| + |names| <= i {
        NamedDistinct(entries, true, i - |indices| - |names|, j - |indices| - |names|);
      }
    }
  }

  lemma AllListed(entries: seq<Record>, values: seq<u32>)
    requires AscendingIndices(entries, values)
    ensures forall key :: key in Indices(values) + Named(entries, false) + Named(entries, true) <==> HasKey(entries, key)
  {
    hide Named, HasKey;
    forall key ensures key in Indices(values) + Named(entries, false) + Named(entries, true) <==> HasKey(entries, key) {
      NamedHas(entries, false, key);
      NamedHas(entries, true, key);
      IndicesHave(values, key);
    }
  }

  lemma IndicesHave(values: seq<u32>, key: Key)
    ensures key in Indices(values) <==> key.Index? && key.value in values
  {
    if key.Index? && key.value in values {
      var i :| 0 <= i < |values| && values[i] == key.value;
      assert Indices(values)[i] == key;
    }
  }

  lemma NoKeys()
    ensures AscendingIndices([], []) && Indices([]) + Named([], false) + Named([], true) == []
  {}

  // ----- no key is lost or repeated -----

  function CountIndices(entries: seq<Record>): nat {
    if entries == [] then 0
    else CountIndices(entries[..|entries| - 1]) + if entries[|entries| - 1].key.Index? then 1 else 0
  }

  lemma {:induction false} KeyCounts(entries: seq<Record>)
    ensures |entries| == CountIndices(entries) + |Named(entries, false)| + |Named(entries, true)|
  {
    if entries != [] { KeyCounts(entries[..|entries| - 1]); }
  }

  ghost function IndexSet(entries: seq<Record>): set<u32> {
    if entries == [] then {}
    else
      var last := entries[|entries| - 1].key;
      IndexSet(entries[..|entries| - 1]) + if last.Index? then {last.value} else {}
  }

  lemma {:induction false} IndexSetIs(entries: seq<Record>, v: u32)
    ensures v in IndexSet(entries) <==> HasKey(entries, Index(v))
  {
    if entries != [] {
      var last := |entries| - 1;
      IndexSetIs(entries[..last], v);
      if HasKey(entries[..last], Index(v)) {
        var i :| 0 <= i < last && entries[..last][i].key == Index(v);
        assert entries[i].key == Index(v);
      }
      if HasKey(entries, Index(v)) && entries[last].key != Index(v) {
        var i :| 0 <= i < |entries| && entries[i].key == Index(v);
        assert entries[..last][i].key == Index(v);
      }
    }
  }

  lemma {:induction false} IndexSetSize(entries: seq<Record>)
    requires Distinct(entries)
    ensures |IndexSet(entries)| == CountIndices(entries)
  {
    if entries != [] {
      var last := |entries| - 1;
      IndexSetSize(entries[..last]);
      if entries[last].key.Index? {
        IndexSetIs(entries[..last], entries[last].key.value);
        assert !HasKey(entries[..last], entries[last].key);
      }
    }
  }

  ghost function Elements(values: seq<u32>): set<u32> {
    if values == [] then {} else Elements(values[..|values| - 1]) + {values[|values| - 1]}
  }

  lemma {:induction false} ElementsIs(values: seq<u32>, v: u32)
    ensures v in Elements(values) <==> v in values
  {
    if values != [] {
      var last := |values| - 1;
      ElementsIs(values[..last], v);
      assert values == values[..last] + [values[last]];
    }
  }

  lemma {:induction false} ElementsSize(values: seq<u32>)
    requires Ascending(values)
    ensures |Elements(values)| == |values|
  {
    if values != [] {
      var last := |values| - 1;
      ElementsSize(values[..last]);
      ElementsIs(values[..last], values[last]);
    }
  }

  lemma {:induction false} SubsetSize(a: set<u32>, b: set<u32>)
    requires a <= b
    ensures |a| <= |b| && (a != b ==> |a| < |b|)
  {
    if a != {} {
      var x :| x in a;
      SubsetSize(a - {x}, b - {x});
    } else if b != {} {
      var x :| x in b;
      assert |b| == |b - {x}| + 1;
    }
  }

  lemma AllIndices(entries: seq<Record>, values: seq<u32>)
    requires Distinct(entries) && AscendingIndices(entries, values)
    ensures |values| == CountIndices(entries)
  {
    hide Elements, IndexSet, CountIndices, HasKey;
    IndexSetSize(entries);
    ElementsSize(values);
    forall v: u32 ensures v in Elements(values) <==> v in IndexSet(entries) {
      ElementsIs(values, v);
      IndexSetIs(entries, v);
    }
    assert Elements(values) == IndexSet(entries);
  }

  lemma FewerIndices(entries: seq<Record>, values: seq<u32>)
    requires Distinct(entries) && Ascending(values)
    requires forall v: u32 :: v in values ==> HasKey(entries, Index(v))
    requires exists v: u32 :: v !in values && HasKey(entries, Index(v))
    ensures |values| < CountIndices(entries)
  {
    hide Elements, IndexSet, CountIndices, HasKey;
    IndexSetSize(entries);
    ElementsSize(values);
    forall v: u32 | v in Elements(values) ensures v in IndexSet(entries) {
      ElementsIs(values, v);
      IndexSetIs(entries, v);
    }
    var v: u32 :| v !in values && HasKey(entries, Index(v));
    ElementsIs(values, v);
    IndexSetIs(entries, v);
    SubsetSize(Elements(values), IndexSet(entries));
  }
}
