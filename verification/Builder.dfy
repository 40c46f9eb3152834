/** The bytecode encoder: instructions, labels and forward-jump patches written
    into caller-provided storage. */
module Builder {
  import opened Words
  import opened Bytecode
  import opened Encoding

  datatype BuildError = Full | JumpTooFar | Label

  /** Where a displacement is missing, and which label it is for. */
  datatype Patch = Patch(target: u32, instruction: u32, operand: u32)

  const UNBOUND: u32 := U32_MAX

  /** The items lie one after another and their bytes are the code. */
  ghost predicate Laid(items: seq<Item>, code: seq<byte>) {
    && (items == [] ==> code == []) && (items != [] ==> items[0].at == 0 && items[|items| - 1].End() == |code|)
    && (forall k :: 0 < k < |items| ==> items[k].at == items[k - 1].End())
    && (forall k :: 0 <= k < |items| ==> Holds(code, items[k]))
  }

  /** A branch still waiting for its label is a wide jump of zero. */
  ghost predicate Waits(item: Item, l: u32) {
    item.target == Some(l) && item.width == Wide && item.values == [0] && IsBranch(item.opcode)
  }

  /** A branch, if the item is one, reaches the position its label is bound to. */
  ghost predicate Lands(item: Item, labels: seq<u32>) {
    item.target.Some? ==>
      && IsBranch(item.opcode) && item.target.value < |labels| && labels[item.target.value] != UNBOUND
      && item.values == [labels[item.target.value] - item.at]
  }

  /** A position where an item starts, or the end of the code. */
  ghost predicate AtItem(items: seq<Item>, length: nat, position: int) {
    position == length || exists k :: 0 <= k < |items| && items[k].at == position
  }

  /** Every operand is written wide enough to read back exactly. */
  ghost predicate Fits(item: Item) {
    && Proper(item)
    && forall i :: 0 <= i < |item.values| ==>
         WidthNeeded(Signature(item.opcode)[i], item.values[i]).Bytes() <= item.width.Bytes()
  }

  // ----- bounded appending -----

  /** As much of `s` as the storage holds. */
  function Clip(s: seq<byte>, capacity: nat): seq<byte> {
    if |s| <= capacity then s else s[..capacity]
  }

  /** The first error stands; running out of storage is one. */
  function Overflowed(error: Option<BuildError>, length: nat, capacity: nat): Option<BuildError> {
    if length <= capacity || error.Some? then error else Some(Full)
  }

  lemma ClipTwice(s: seq<byte>, t: seq<byte>, capacity: nat)
    ensures Clip(Clip(s, capacity) + t, capacity) == Clip(s + t, capacity)
  {
    if |s| > capacity { assert (s[..capacity] + t)[..capacity] == (s + t)[..capacity]; }
  }

  // ----- what the builder knows -----

  /** The patches are the waiting branches; `owners` says which items they are. */
  ghost predicate PatchesPoint(items: seq<Item>, owners: seq<nat>, patches: seq<Patch>) {
    && |owners| == |patches|
    && (forall j :: 0 <= j < |owners| ==>
          && owners[j] < |items| && Waits(items[owners[j]], patches[j].target)
          && patches[j].instruction == items[owners[j]].at
          && patches[j].operand == items[owners[j]].at + 2)
    && (forall i, j :: 0 <= i < j < |owners| ==> owners[i] < owners[j])
  }

  /** Every other branch already reaches its label. */
  ghost predicate RestLand(items: seq<Item>, owners: seq<nat>, labels: seq<u32>) {
    forall k :: 0 <= k < |items| && k !in owners ==> Lands(items[k], labels)
  }

  ghost predicate AllFit(items: seq<Item>) { forall k :: 0 <= k < |items| ==> Fits(items[k]) }

  /** Labels are bound to positions an instruction starts at. */
  ghost predicate LabelsPlaced(items: seq<Item>, length: nat, labels: seq<u32>) {
    forall l :: 0 <= l < |labels| ==> labels[l] == UNBOUND || AtItem(items, length, labels[l])
  }

  ghost predicate Consistent(items: seq<Item>, owners: seq<nat>, code: seq<byte>, patches: seq<Patch>, labels: seq<u32>) {
    && Laid(items, code) && AllFit(items)
    && PatchesPoint(items, owners, patches) && RestLand(items, owners, labels)
    && LabelsPlaced(items, |code|, labels)
    && forall j :: 0 <= j < |patches| ==> patches[j].target < |labels|
  }

  lemma HoldsLonger(code: seq<byte>, more: seq<byte>, item: Item)
    requires Holds(code, item)
    ensures Holds(code + more, item)
  {
    hide Encode;
    assert (code + more)[item.at..item.End()] == code[item.at..item.End()];
  }

  lemma HoldsAppended(code: seq<byte>, item: Item)
    requires item.at == |code|
    ensures Holds(code + Encode(item), item)
  {
    hide Encode;
    assert (code + Encode(item))[item.at..item.End()] == Encode(item);
  }

  /** Writing one more item. */
  lemma LaidAppend(items: seq<Item>, code: seq<byte>, item: Item)
    requires Laid(items, code) && item.at == |code|
    ensures Laid(items + [item], code + Encode(item))
  {
    hide Encode, Holds;
    var longer, bytes := items + [item], code + Encode(item);
    HoldsAppended(code, item);
    forall k | 0 <= k < |items| ensures Holds(bytes, items[k]) {
      HoldsLonger(code, Encode(item), items[k]);
    }
  }

  lemma LabelsAppend(items: seq<Item>, code: seq<byte>, labels: seq<u32>, item: Item)
    requires LabelsPlaced(items, |code|, labels) && item.at == |code|
    ensures LabelsPlaced(items + [item], item.End(), labels)
  {
    var longer := items + [item];
    forall l | 0 <= l < |labels| && labels[l] != UNBOUND ensures AtItem(longer, item.End(), labels[l]) {
      if labels[l] == |code| {
        assert longer[|items|].at == labels[l];
      } else {
        var k :| 0 <= k < |items| && items[k].at == labels[l];
        assert longer[k].at == labels[l];
      }
    }
  }

  lemma ConsistentAppend(items: seq<Item>, owners: seq<nat>, code: seq<byte>, patches: seq<Patch>, labels: seq<u32>, item: Item)
    requires Consistent(items, owners, code, patches, labels)
    requires item.at == |code| && Fits(item) && Lands(item, labels)
    ensures Consistent(items + [item], owners, code + Encode(item), patches, labels)
  {
    hide Encode, Fits, Laid, LabelsPlaced;
    LaidAppend(items, code, item);
    LabelsAppend(items, code, labels, item);
  }

  /** A forward jump joins the waiting ones. */
  lemma ConsistentWait(items: seq<Item>, owners: seq<nat>, code: seq<byte>, patches: seq<Patch>, labels: seq<u32>,
                       item: Item, patch: Patch)
    requires Consistent(items, owners, code, patches, labels)
    requires item.at == |code| && Fits(item) && Waits(item, patch.target) && patch.target < |labels|
    requires patch.instruction == item.at && patch.operand == item.at + 2
    ensures Consistent(items + [item], owners + [|items|], code + Encode(item), patches + [patch], labels)
  {
    hide Encode, Fits, Laid, LabelsPlaced, RestLand, PatchesPoint;
    LaidAppend(items, code, item);
    LabelsAppend(items, code, labels, item);
    RestLandWait(items, owners, labels, item);
    PatchesWait(items, owners, patches, item, patch);
  }

  lemma RestLandWait(items: seq<Item>, owners: seq<nat>, labels: seq<u32>, item: Item)
    requires RestLand(items, owners, labels)
    ensures RestLand(items + [item], owners + [|items|], labels)
  {
    var longer := owners + [|items|];
    assert longer[|owners|] == |items|;
    forall k | 0 <= k < |items| && k !in longer ensures Lands(items[k], labels) {
      assert k !in owners;
    }
  }

  lemma PatchesWait(items: seq<Item>, owners: seq<nat>, patches: seq<Patch>, item: Item, patch: Patch)
    requires PatchesPoint(items, owners, patches) && Waits(item, patch.target)
    requires patch.instruction == item.at && patch.operand == item.at + 2
    ensures PatchesPoint(items + [item], owners + [|items|], patches + [patch])
  {}

  /** A label put at the end of what is written so far. */
  lemma ConsistentBind(items: seq<Item>, owners: seq<nat>, code: seq<byte>, patches: seq<Patch>, labels: seq<u32>, l: nat)
    requires Consistent(items, owners, code, patches, labels) && l < |labels| && labels[l] == UNBOUND
    requires |code| < UNBOUND
    ensures Consistent(items, owners, code, patches, labels[l := |code|])
  {
    hide Laid, AllFit, PatchesPoint;
    forall k | 0 <= k < |items| && k !in owners ensures Lands(items[k], labels[l := |code|]) {
      assert Lands(items[k], labels);
    }
  }

  // ----- resolving forward jumps -----

  lemma {:induction false} LaidOrdered(items: seq<Item>, code: seq<byte>, i: nat, j: nat)
    requires Laid(items, code) && i < j < |items|
    ensures items[i].End() <= items[j].at
    decreases j
  {
    if i < j - 1 { LaidOrdered(items, code, i, j - 1); }
  }

  /** The code with the two bytes at `at` replaced by a displacement. */
  function Patched(code: seq<byte>, at: nat, displacement: int): (code': seq<byte>)
    requires at + 2 <= |code|
    ensures |code'| == |code|
  {
    code[..at] + ToLittleEndian(Low32(displacement), 2) + code[at + 2..]
  }

  lemma PatchedItemHolds(code: seq<byte>, item: Item, displacement: int)
    requires Holds(code, item) && item.width == Wide && |item.values| == 1
    ensures item.at + 4 == item.End()
    ensures Holds(Patched(code, item.at + 2, displacement), item.(values := [displacement]))
  {
    var code', item' := Patched(code, item.at + 2, displacement), item.(values := [displacement]);
    var bytes := ToLittleEndian(Low32(displacement), 2);
    assert EncodeOperands(item'.values, Wide) == bytes by { assert item'.values[..0] == []; }
    assert code'[item.at..item.End()] == code[item.at..item.at + 2] + bytes;
    assert code[item.at..item.at + 2] == code[item.at..item.End()][..2];
    assert Encode(item)[..2] == Head(item) == Head(item');
  }

  lemma PatchedElsewhereHolds(code: seq<byte>, at: nat, displacement: int, item: Item)
    requires Holds(code, item) && at + 2 <= |code| && (item.End() <= at || at + 2 <= item.at)
    ensures Holds(Patched(code, at, displacement), item)
  {
    hide Encode;
    var code' := Patched(code, at, displacement);
    assert code'[item.at..item.End()] == code[item.at..item.End()];
  }

  lemma LaidPatch(items: seq<Item>, code: seq<byte>, k: nat, displacement: int)
    requires Laid(items, code) && k < |items| && items[k].width == Wide && |items[k].values| == 1
    ensures items[k].at + 4 == items[k].End() <= |code|
    ensures Laid(items[k := items[k].(values := [displacement])], Patched(code, items[k].at + 2, displacement))
  {
    hide Encode, Patched;
    assert Holds(code, items[k]);
    PatchedItemHolds(code, items[k], displacement);
    var items', code' := items[k := items[k].(values := [displacement])], Patched(code, items[k].at + 2, displacement);
    forall j | 0 <= j < |items| ensures Holds(code', items'[j]) {
      assert Holds(code, items[j]);
      if j < k { LaidOrdered(items, code, j, k); } else if k < j { LaidOrdered(items, code, k, j); }
      if j != k { PatchedElsewhereHolds(code, items[k].at + 2, displacement, items[j]); }
    }
  }

  lemma BranchFits(item: Item, displacement: int)
    requires Fits(item) && IsBranch(item.opcode) && item.width == Wide && -32768 <= displacement <= 32767
    ensures Fits(item.(values := [displacement]))
  {
    assert Signature(item.opcode) == [Jump];
  }

  /** Resolving the first waiting jump leaves the others waiting. */
  lemma ConsistentPatch(items: seq<Item>, owners: seq<nat>, code: seq<byte>, patches: seq<Patch>, labels: seq<u32>)
    requires Consistent(items, owners, code, patches, labels) && owners != []
    requires patches[0].target < |labels| && labels[patches[0].target] != UNBOUND
    requires -32768 <= labels[patches[0].target] - patches[0].instruction <= 32767
    ensures patches[0].operand + 2 <= |code|
    ensures var displacement := labels[patches[0].target] - patches[0].instruction;
            Consistent(items[owners[0] := items[owners[0]].(values := [displacement])], owners[1..],
                       Patched(code, patches[0].operand, displacement), patches[1..], labels)
  {
    hide Laid, AllFit, RestLand, LabelsPlaced, Fits, Patched;
    var k, displacement := owners[0], labels[patches[0].target] - patches[0].instruction;
    LaidPatch(items, code, k, displacement);
    AllFitPatch(items, k, displacement);
    RestLandPatch(items, owners, patches, labels, displacement);
    PatchesPatch(items, owners, patches, displacement);
    LabelsPatch(items, |code|, labels, k, displacement);
  }

  lemma AllFitPatch(items: seq<Item>, k: nat, displacement: int)
    requires AllFit(items) && k < |items| && IsBranch(items[k].opcode) && items[k].width == Wide
    requires -32768 <= displacement <= 32767
    ensures AllFit(items[k := items[k].(values := [displacement])])
  {
    hide Fits;
    BranchFits(items[k], displacement);
  }

  lemma RestLandPatch(items: seq<Item>, owners: seq<nat>, patches: seq<Patch>, labels: seq<u32>, displacement: int)
    requires RestLand(items, owners, labels) && PatchesPoint(items, owners, patches) && owners != []
    requires patches[0].target < |labels| && labels[patches[0].target] != UNBOUND
    requires displacement == labels[patches[0].target] - patches[0].instruction
    ensures RestLand(items[owners[0] := items[owners[0]].(values := [displacement])], owners[1..], labels)
  {
    var k := owners[0];
    var items' := items[k := items[k].(values := [displacement])];
    forall j | 0 <= j < |items'| && j !in owners[1..] ensures Lands(items'[j], labels) {
      if j != k { assert j !in owners by { assert owners == [k] + owners[1..]; } }
    }
  }

  lemma PatchesPatch(items: seq<Item>, owners: seq<nat>, patches: seq<Patch>, displacement: int)
    requires PatchesPoint(items, owners, patches) && owners != []
    ensures PatchesPoint(items[owners[0] := items[owners[0]].(values := [displacement])], owners[1..], patches[1..])
  {}

  lemma LabelsPatch(items: seq<Item>, length: nat, labels: seq<u32>, k: nat, displacement: int)
    requires LabelsPlaced(items, length, labels) && k < |items|
    ensures LabelsPlaced(items[k := items[k].(values := [displacement])], length, labels)
  {
    var items' := items[k := items[k].(values := [displacement])];
    forall l | 0 <= l < |labels| && labels[l] != UNBOUND ensures AtItem(items', length, labels[l]) {
      if labels[l] != length {
        var j :| 0 <= j < |items| && items[j].at == labels[l];
        assert items'[j].at == labels[l];
      }
    }
  }

  /** Why a waiting branch cannot be filled in: no position, or one too far. */
  function Trouble(item: Item, labels: seq<u32>): Option<BuildError> {
    if item.target.None? || item.target.value >= |labels| || labels[item.target.value] == UNBOUND then Some(Label)
    else if -32768 <= labels[item.target.value] - item.at <= 32767 then None
    else Some(JumpTooFar)
  }

  /** The first trouble among the waiting branches from the `index`th on. */
  ghost function FirstTrouble(items: seq<Item>, owners: seq<nat>, labels: seq<u32>, index: nat): (r: Option<BuildError>)
    requires index <= |owners| && forall j :: 0 <= j < |owners| ==> owners[j] < |items|
    ensures r.None? <==> forall j :: index <= j < |owners| ==> Trouble(items[owners[j]], labels).None?
    decreases |owners| - index
  {
    if index == |owners| then None else
    var here := Trouble(items[owners[index]], labels);
    if here.Some? then here else FirstTrouble(items, owners, labels, index + 1)
  }

  /** `items'` are `items` with the waiting displacements filled in. */
  ghost predicate Resolves(items: seq<Item>, items': seq<Item>) {
    && |items'| == |items|
    && forall k :: 0 <= k < |items| ==>
         items'[k] == items[k] || (items[k].target.Some? && items'[k] == items[k].(values := items'[k].values))
  }
}
