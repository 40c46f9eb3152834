/** The registry of a link: modules by content key, and the imports between them. */
module Registries {
  import opened Words
  import opened ImportGraphs

  datatype Key = Key(digest: seq<byte>)

  datatype Form = Source | Image

  datatype Status = New | Linking | Linked | Evaluating | Evaluated | Failed

  /** The steps a module's status may take. */
  predicate Admits(now: Status, next: Status) {
    || (now.New? && next.Linking?)
    || (now.Linking? && (next.Linked? || next.Failed?))
    || (now.Linked? && (next.Evaluating? || next.Failed?))
    || (now.Evaluating? && (next.Evaluated? || next.Failed?))
  }

  const WAY: seq<Status> := [New, Linking, Linked, Evaluating, Evaluated]

  /** The statuses a module goes through, from its registration on. */
  ghost predicate Lives(statuses: seq<Status>) {
    statuses != [] && statuses[0] == New && forall i :: 0 <= i < |statuses| - 1 ==> Admits(statuses[i], statuses[i + 1])
  }

  /** A module goes one way, step by step, and may fail anywhere on it but before the
      link and after the evaluation. */
  lemma {:induction false} OneWay(statuses: seq<Status>)
    ensures Lives(statuses) <==>
            && statuses != []
            && (statuses <= WAY || (3 <= |statuses| <= 5 && statuses[..|statuses| - 1] <= WAY && statuses[|statuses| - 1] == Failed))
    decreases |statuses|
  {
    var n := |statuses|;
    if n > 1 {
      var front := statuses[..n - 1];
      OneWay(front);
      assert front[n - 2] == statuses[n - 2] && statuses[n - 2 + 1] == statuses[n - 1];
      assert Lives(statuses) <==> Lives(front) && Admits(statuses[n - 2], statuses[n - 1]);
      assert n <= 6 || !Lives(statuses);
    }
  }

  datatype Rejection = Unresolved | DuplicateKey | ClosureTooLarge | MissingDependency | WrongState | RegistryFull

  datatype Import = Import(specifierStart: u32, specifierEnd: u32, resolved: Option<Key>)

  datatype Record = Record(key: Key, form: Form, status: Status, importsAt: nat, importCount: nat, order: nat)

  const NO_ORDER: nat := U32_MAX
  const MAX_CLOSURE := 64

  /** The first module of a key. */
  function IndexOf(records: seq<Record>, count: nat, key: Key): (i: Option<nat>)
    requires count <= |records|
    ensures i.Some? ==> i.value < count && records[i.value].key == key
    ensures i.None? ==> forall k :: 0 <= k < count ==> records[k].key != key
  {
    if count == 0 then None
    else
      var earlier := IndexOf(records, count - 1, key);
      if earlier.Some? then earlier else if records[count - 1].key == key then Some(count - 1) else None
  }

  /** What an import leads to: nothing while unresolved or unknown. */
  function Target(records: seq<Record>, count: nat, imported: Import): Option<nat>
    requires count <= |records|
  {
    match imported.resolved
    case None => None
    case Some(key) => IndexOf(records, count, key)
  }

  /** The ranges of the import table lie in it, one after another. */
  predicate Laid(records: seq<Record>, count: nat, importCount: nat) {
    && count <= |records|
    && (forall i :: 0 <= i < count ==> records[i].importsAt + records[i].importCount <= importCount)
    && (forall i, j :: 0 <= i < j < count ==> records[i].importsAt + records[i].importCount <= records[j].importsAt)
  }

  function Row(records: seq<Record>, count: nat, imports: seq<Import>, m: nat): (row: seq<Option<nat>>)
    requires m < count <= |records| && records[m].importsAt + records[m].importCount <= |imports|
    ensures |row| == records[m].importCount
  {
    seq(records[m].importCount, k requires 0 <= k < records[m].importCount =>
      Target(records, count, imports[records[m].importsAt + k]))
  }

  lemma IndexSays(records: seq<Record>, count: nat, key: Key)
    requires count <= |records|
    ensures IndexOf(records, count, key).None? ==> forall k :: 0 <= k < count ==> records[k].key != key
  {}

  lemma LaidRoom(records: seq<Record>, count: nat, importCount: nat)
    requires Laid(records, count, importCount)
    ensures count <= |records| && forall more: nat :: importCount <= more ==> Laid(records, count, more)
  {}

  /** What is resolved is resolved to a module of the registry. */
  ghost predicate Known(records: seq<Record>, count: nat, imports: seq<Import>, importCount: nat) {
    && count <= |records| && importCount <= |imports|
    && forall k :: 0 <= k < importCount && imports[k].resolved.Some? ==> Target(records, count, imports[k]).Some?
  }

  lemma KnownStill(records: seq<Record>, count: nat, imports: seq<Import>, importCount: nat, at: nat, key: Key)
    requires Known(records, count, imports, importCount) && at < |imports| && IndexOf(records, count, key).Some?
    ensures Known(records, count, imports[at := imports[at].(resolved := Some(key))], importCount)
  {}

  /** The import graph a registry holds. */
  function GraphOf(records: seq<Record>, count: nat, imports: seq<Import>): (g: Graph)
    requires Laid(records, count, |imports|)
    ensures |g| == count
  {
    seq(count, m requires 0 <= m < count => Row(records, count, imports, m))
  }

  class Registry {
    var records: seq<Record>
    var count: nat
    var imports: seq<Import>
    var importCount: nat

    constructor (records: seq<Record>, imports: seq<Import>)
      ensures Valid() && Edges() == [] && this.records == records && this.imports == imports
    {
      this.records, count, this.imports, importCount := records, 0, imports, 0;
    }

    ghost predicate Valid()
      reads this
    {
      && count <= MAX_CLOSURE && importCount <= |imports| && Laid(records, count, importCount)
      && (count > 0 ==> records[count - 1].importsAt + records[count - 1].importCount == importCount)
      && (forall i, j :: 0 <= i < j < count ==> records[i].key != records[j].key)
      && Known(records, count, imports, importCount)
    }

    ghost function Edges(): Graph
      requires Laid(records, count, |imports|)
      reads this
    {
      GraphOf(records, count, imports)
    }

    method Find(key: Key) returns (i: Option<nat>)
      requires count <= |records|
      ensures i == IndexOf(records, count, key)
    {
      var index := 0;
      while index < count
        invariant 0 <= index <= count && IndexOf(records, index, key).None?
      {
        if records[index].key == key {
          FoundStays(records, index + 1, count, key);
          return Some(index);
        }
        index := index + 1;
      }
      i := None;
    }

    /** Registering is idempotent in key and form; a new module starts with no imports. */
    method Register(key: Key, form: Form) returns (r: Result<nat, Rejection>)
      requires Valid()
      modifies this`records, this`count
      ensures Valid()
      ensures r == (match old(IndexOf(records, count, key))
                    case Some(i) => if old(records)[i].form == form then Ok(i) else Err(DuplicateKey)
                    case None =>
                      if old(count) >= MAX_CLOSURE then Err(ClosureTooLarge)
                      else if old(count) >= |old(records)| then Err(RegistryFull) else Ok(old(count)))
      ensures r.Ok? ==> r.value < count && records[r.value].key == key && records[r.value].form == form
      ensures r.Err? || old(IndexOf(records, count, key)).Some? ==> records == old(records) && count == old(count)
      ensures r.Ok? && old(IndexOf(records, count, key)).None? ==> r.value == old(count) && Edges() == old(Edges()) + [[]]
      ensures r.Ok? && old(IndexOf(records, count, key)).None? ==>
                && count == old(count) + 1 && |records| == |old(records)|
                && records[old(count)] == Record(key, form, New, importCount, 0, U32_MAX)
                && forall i :: 0 <= i < |records| && i != old(count) ==> records[i] == old(records)[i]
    {
      hide GraphOf, Row, Known, IndexOf, Laid;
      LaidRoom(records, count, importCount);
      IndexSays(records, count, key);
      var found := Find(key);
      if found.Some? {
        if records[found.value].form != form { return Err(DuplicateKey); }
        return Ok(found.value);
      }
      if count >= MAX_CLOSURE { return Err(ClosureTooLarge); }
      if count >= |records| { return Err(RegistryFull); }
      var record := Record(key, form, New, importCount, 0, NO_ORDER);
      RegisterKeeps(records, count, imports, importCount, record);
      records := records[count := record];
      count := count + 1;
      return Ok(count - 1);
    }

    /** An import of the module registered last, not yet resolved. */
    method AddImport(m: nat, specifierStart: u32, specifierEnd: u32) returns (error: Option<Rejection>)
      requires Valid()
      modifies this`records, this`imports, this`importCount
      ensures Valid()
      ensures error == if m + 1 != count then Some(WrongState)
                       else if old(importCount) >= |old(imports)| then Some(RegistryFull) else None
      ensures error.None? ==> m + 1 == |old(Edges())| && Edges() == old(Edges())[m := old(Edges())[m] + [None]]
      ensures error.None? ==>
                && importCount == old(importCount) + 1 && |imports| == |old(imports)| && |records| == |old(records)|
                && imports[old(importCount)] == Import(specifierStart, specifierEnd, None)
                && (forall i :: 0 <= i < |imports| && i != old(importCount) ==> imports[i] == old(imports)[i])
                && records[m] == old(records)[m].(importCount := old(records)[m].importCount + 1)
                && forall i :: 0 <= i < |records| && i != m ==> records[i] == old(records)[i]
      ensures error.Some? ==> records == old(records) && imports == old(imports) && importCount == old(importCount)
    {
      hide GraphOf, Row, Known;
      if m + 1 != count { return Some(WrongState); }
      if importCount >= |imports| { return Some(RegistryFull); }
      var added := Import(specifierStart, specifierEnd, None);
      AddKeeps(records, count, imports, importCount, added);
      imports := imports[importCount := added];
      importCount := importCount + 1;
      records := records[m := records[m].(importCount := records[m].importCount + 1)];
      return None;
    }

    /** Only a module the registry holds may be imported. */
    method Resolve(m: nat, index: nat, key: Key) returns (error: Option<Rejection>)
      requires Valid()
      modifies this`imports
      ensures Valid()
      ensures error == if m >= |records| || index >= records[m].importCount then Some(WrongState)
                       else if IndexOf(records, count, key).None? then Some(MissingDependency)
                       else if records[m].importsAt + index >= |old(imports)| then Some(WrongState) else None
      ensures error.None? && m < count ==> Edges() == old(Edges())[m := old(Edges())[m][index := IndexOf(records, count, key)]]
      ensures imports == if error.Some? then old(imports)
                         else var at := records[m].importsAt + index; old(imports)[at := old(imports)[at].(resolved := Some(key))]
    {
      hide GraphOf, Row, Known, IndexOf, Target;
      if m >= |records| || index >= records[m].importCount { return Some(WrongState); }
      var found := Find(key);
      if found.None? { return Some(MissingDependency); }
      var at := records[m].importsAt + index;
      if at >= |imports| { return Some(WrongState); }
      if m < count { ResolveKeeps(records, count, imports, m, index, key); }
      KnownStill(records, count, imports, importCount, at, key);
      imports := imports[at := imports[at].(resolved := Some(key))];
      return None;
    }

    method SetStatus(m: nat, status: Status) returns (error: Option<Rejection>)
      modifies this`records
      ensures error.None? <==> m < |old(records)| && Admits(old(records)[m].status, status)
      ensures records == if error.None? then old(records)[m := old(records)[m].(status := status)] else old(records)
    {
      if m >= |records| || !Admits(records[m].status, status) { return Some(WrongState); }
      records := records[m := records[m].(status := status)];
      return None;
    }

    method SetOrder(m: nat, order: nat) returns (error: Option<Rejection>)
      modifies this`records
      ensures error.None? <==> m < |old(records)|
      ensures records == if error.None? then old(records)[m := old(records)[m].(order := order)] else old(records)
    {
      if m >= |records| { return Some(WrongState); }
      records := records[m := records[m].(order := order)];
      return None;
    }
  }

  lemma {:induction false} FoundStays(records: seq<Record>, k: nat, count: nat, key: Key)
    requires k <= count <= |records| && IndexOf(records, k, key).Some?
    ensures IndexOf(records, count, key) == IndexOf(records, k, key)
    decreases count
  {
    if k < count { FoundStays(records, k, count - 1, key); }
  }

  /** Finding looks at keys alone. */
  lemma {:induction false} SameKeys(a: seq<Record>, b: seq<Record>, count: nat, key: Key)
    requires count <= |a| && count <= |b| && forall i :: 0 <= i < count ==> a[i].key == b[i].key
    ensures IndexOf(a, count, key) == IndexOf(b, count, key)
  {
    if count > 0 { SameKeys(a, b, count - 1, key); }
  }

  /** Statuses and positions play no part in the graph. */
  lemma SameGraph(a: seq<Record>, b: seq<Record>, count: nat, imports: seq<Import>)
    requires Laid(a, count, |imports|) && |a| == |b|
    requires forall i :: 0 <= i < count ==> b[i] == a[i].(status := b[i].status, order := b[i].order)
    ensures Laid(b, count, |imports|) && GraphOf(b, count, imports) == GraphOf(a, count, imports)
  {
    forall m | 0 <= m < count ensures Row(b, count, imports, m) == Row(a, count, imports, m) {
      var r, s := Row(a, count, imports, m), Row(b, count, imports, m);
      forall k | 0 <= k < |r| ensures s[k] == r[k] { SameTarget(a, b, count, imports[a[m].importsAt + k]); }
      assert r == s;
    }
  }

  lemma SameTarget(a: seq<Record>, b: seq<Record>, count: nat, imported: Import)
    requires count <= |a| && count <= |b| && forall i :: 0 <= i < count ==> a[i].key == b[i].key
    ensures Target(a, count, imported) == Target(b, count, imported)
  {
    if imported.resolved.Some? { SameKeys(a, b, count, imported.resolved.value); }
  }

  /** A known key is found in the same place when a module is added. */
  lemma TargetStays(a: seq<Record>, count: nat, record: Record, imported: Import)
    requires count < |a| && (imported.resolved.None? || Target(a, count, imported).Some?)
    ensures Target(a[count := record], count + 1, imported) == Target(a, count, imported)
  {
    SameTarget(a, a[count := record], count, imported);
  }

  lemma RegisterKeeps(records: seq<Record>, count: nat, imports: seq<Import>, importCount: nat, record: Record)
    requires count < |records| && importCount <= |imports| && Laid(records, count, importCount)
    requires record.importsAt == importCount && record.importCount == 0
    requires Known(records, count, imports, importCount)
    ensures var after := records[count := record];
            && Laid(after, count + 1, importCount)
            && GraphOf(after, count + 1, imports) == GraphOf(records, count, imports) + [[]]
            && Known(after, count + 1, imports, importCount)
  {
    var after := records[count := record];
    forall k | 0 <= k < importCount ensures Target(after, count + 1, imports[k]) == Target(records, count, imports[k]) {
      TargetStays(records, count, record, imports[k]);
    }
    var g := GraphOf(records, count, imports) + [[]];
    forall m | 0 <= m < count + 1 ensures Row(after, count + 1, imports, m) == g[m] {}
  }

  lemma AddKeeps(records: seq<Record>, count: nat, imports: seq<Import>, importCount: nat, added: Import)
    requires 0 < count && importCount < |imports| && Laid(records, count, importCount) && added.resolved.None?
    requires records[count - 1].importsAt + records[count - 1].importCount == importCount
    ensures var m := count - 1;
            var after := records[m := records[m].(importCount := records[m].importCount + 1)];
            var table := imports[importCount := added];
            && Laid(after, count, importCount + 1)
            && GraphOf(after, count, table)
               == GraphOf(records, count, imports)[m := GraphOf(records, count, imports)[m] + [None]]
            && (Known(records, count, imports, importCount) ==> Known(after, count, table, importCount + 1))
  {
    var m := count - 1;
    var after, table := records[m := records[m].(importCount := records[m].importCount + 1)], imports[importCount := added];
    forall k | 0 <= k < importCount ensures Target(after, count, table[k]) == Target(records, count, imports[k]) {
      SameTarget(records, after, count, imports[k]);
    }
    var g := GraphOf(records, count, imports);
    forall i | 0 <= i < count ensures Row(after, count, table, i) == g[m := g[m] + [None]][i] {
      var r, s := Row(records, count, imports, i), Row(after, count, table, i);
      assert g[i] == r;
      forall k | 0 <= k < |r| ensures s[k] == r[k] {
        assert s[k] == Target(after, count, table[records[i].importsAt + k]);
      }
      if i == m {
        assert s[|r|] == Target(after, count, table[importCount]);
        assert s == r + [None];
      } else {
        assert s == r;
      }
    }
  }

  lemma ResolveKeeps(records: seq<Record>, count: nat, imports: seq<Import>, m: nat, index: nat, key: Key)
    requires Laid(records, count, |imports|) && m < count && index < records[m].importCount
    ensures var at := records[m].importsAt + index;
            var table := imports[at := imports[at].(resolved := Some(key))];
            var g := GraphOf(records, count, imports);
            GraphOf(records, count, table) == g[m := g[m][index := IndexOf(records, count, key)]]
  {
    var at := records[m].importsAt + index;
    var table := imports[at := imports[at].(resolved := Some(key))];
    var g := GraphOf(records, count, imports);
    forall i | 0 <= i < count ensures Row(records, count, table, i) == g[m := g[m][index := IndexOf(records, count, key)]][i] {
      var r, s := Row(records, count, imports, i), Row(records, count, table, i);
      assert g[i] == r;
      assert i < m ==> records[i].importsAt + records[i].importCount <= records[m].importsAt;
      assert m < i ==> records[m].importsAt + records[m].importCount <= records[i].importsAt;
      forall k | 0 <= k < |r| && !(i == m && k == index) ensures s[k] == r[k] {
        assert table[records[i].importsAt + k] == imports[records[i].importsAt + k];
      }
      if i == m {
        assert s[index] == Target(records, count, table[at]) == IndexOf(records, count, key);
        assert s == r[index := IndexOf(records, count, key)];
      } else {
        assert s == r;
      }
    }
  }
}
