/** The encoder object, and that what it writes decodes to what was asked of it. */
module CodeBuilders {
  import opened Words
  import opened Bytecode
  import opened Encoding
  import opened Builder

  class CodeBuilder {
    const code: array<byte>
    var length: nat
    const safePoints: array<u32>
    var safePointCount: nat
    const patches: array<Patch>
    var patchCount: nat
    const labels: array<u32>
    var labelCount: nat
    var error: Option<BuildError>
    /** Set by an instruction that control does not fall out of. */
    var terminated: bool

    /** The instructions written, and which of them still wait for a label. */
    ghost var items: seq<Item>
    ghost var owners: seq<nat>

    ghost predicate Sized()
      reads this
    {
      && length <= code.Length < UNBOUND && labels.Length <= UNBOUND && labels != safePoints
      && safePointCount <= safePoints.Length && patchCount <= patches.Length && labelCount <= labels.Length
    }

    /** Until an error stops it, the builder's bytes are exactly its items. */
    ghost predicate Valid()
      reads this, code, patches, labels, safePoints
    {
      && Sized()
      && (error.None? ==>
            && Consistent(items, owners, code[..length], patches[..patchCount], labels[..labelCount])
            && Ascending(safePoints[..safePointCount], length))
    }

    constructor (code: array<byte>, safePoints: array<u32>, patches: array<Patch>, labels: array<u32>)
      requires code.Length < UNBOUND && labels.Length <= UNBOUND && labels != safePoints
      ensures Valid() && error.None? && items == []
      ensures this.code == code && this.safePoints == safePoints && this.patches == patches && this.labels == labels
      ensures length == safePointCount == patchCount == labelCount == 0
    {
      NothingConsistent();
      hide Consistent, Ascending;
      assert code[..0] == [] && patches[..0] == [] && labels[..0] == [] && safePoints[..0] == [];
      this.code, this.safePoints, this.patches, this.labels := code, safePoints, patches, labels;
      length, safePointCount, patchCount, labelCount := 0, 0, 0, 0;
      error, terminated := None, false;
      items, owners := [], [];
    }

    method Fail(problem: BuildError)
      modifies this`error
      ensures error == if old(error).None? then Some(problem) else old(error)
    {
      if error.None? { error := Some(problem); }
    }

    method WriteByte(b: byte)
      requires Sized()
      modifies this`length, this`error, code
      ensures Sized()
      ensures code[..length] == Clip(old(code[..length]) + [b], code.Length)
      ensures error == Overflowed(old(error), old(length) + 1, code.Length)
    {
      if length < code.Length {
        code[length] := b;
        length := length + 1;
      } else {
        Fail(Full);
      }
    }

    method WriteBytes(bytes: seq<byte>)
      requires Sized()
      modifies this`length, this`error, code
      ensures Sized()
      ensures code[..length] == Clip(old(code[..length]) + bytes, code.Length)
      ensures error == Overflowed(old(error), old(length) + |bytes|, code.Length)
    {
      var index := 0;
      ghost var before := code[..length];
      assert before + bytes[..0] == before;
      while index < |bytes|
        invariant 0 <= index <= |bytes| && Sized()
        invariant code[..length] == Clip(before + bytes[..index], code.Length)
        invariant error == Overflowed(old(error), |before| + index, code.Length)
      {
        AppendNext(before, bytes, index, code.Length);
        WriteByte(bytes[index]);
        index := index + 1;
      }
      assert bytes[..index] == bytes;
    }

    method WriteOperands(width: Width, operands: seq<int>)
      requires Sized()
      modifies this`length, this`error, code
      ensures Sized()
      ensures code[..length] == Clip(old(code[..length]) + EncodeOperands(operands, width), code.Length)
      ensures error == Overflowed(old(error), old(length) + Span(width, |operands|), code.Length)
    {
      hide EncodeOperand, EncodeOperands;
      ghost var before := code[..length];
      var index := 0;
      NoOperands(before, operands, width, code.Length);
      while index < |operands|
        invariant 0 <= index <= |operands| && Sized()
        invariant code[..length] == Clip(before + EncodeOperands(operands[..index], width), code.Length)
        invariant error == Overflowed(old(error), |before| + Span(width, index), code.Length)
      {
        OperandNext(before, operands, width, index, code.Length);
        WriteBytes(EncodeOperand(operands[index], width));
        index := index + 1;
      }
      assert operands[..index] == operands;
    }

    /** The prefix, the opcode, then each operand's low bytes. */
    method WriteInstruction(opcode: byte, width: Width, operands: seq<int>, ghost item: Item)
      requires Sized() && item.opcode == opcode && item.width == width && item.values == operands
      modifies this`length, this`error, code
      ensures Sized()
      ensures code[..length] == Clip(old(code[..length]) + Encode(item), code.Length)
      ensures error == Overflowed(old(error), old(length) + item.Length(), code.Length)
    {
      hide EncodeOperand, EncodeOperands;
      ghost var before := code[..length];
      WriteBytes(Prefix(width));
      WriteByte(opcode);
      WriteOperands(width, operands);
      InThreeParts(before, item, code.Length);
    }

    /** Write one instruction as narrowly as its operands allow. */
    method Emit(opcode: byte, operands: seq<int>)
      requires Valid() && Assigned(opcode)
      modifies this`length, this`error, this`terminated, this`items, code
      ensures Valid()
      ensures old(error).Some? ==> error == old(error)
      ensures old(error).None? && |operands| != |Signature(opcode)| ==> error == Some(Label)
      ensures old(error).None? && |operands| == |Signature(opcode)| ==>
                exists width ::
                  && Narrowest(Signature(opcode), operands, width)
                  && var item := Item(old(length), opcode, width, operands, None);
                  && error == (if item.End() <= code.Length then None else Some(Full))
                  && (error.None? ==> items == old(items) + [item] && length == item.End())
    {
      hide Consistent, Encode, Fits, Signature;
      if error.Some? { return; }
      terminated := IsTerminator(opcode);
      if |operands| != |Signature(opcode)| {
        Fail(Label);
        return;
      }
      var width := WidthFor(Signature(opcode), operands);
      ghost var item := Item(length, opcode, width, operands, None);
      ghost var before := code[..length];
      NarrowestFits(item);
      WriteInstruction(opcode, width, operands, item);
      if error.None? {
        ConsistentAppend(items, owners, before, patches[..patchCount], labels[..labelCount], item);
        items := items + [item];
      }
    }

    /** Hand out the next label, not bound to any position. */
    method NewLabel() returns (l: u32)
      requires Valid()
      modifies this`labelCount, this`error, labels
      ensures Valid() && labelCount >= old(labelCount)
      ensures error == if old(error).Some? then old(error) else if old(labelCount) < labels.Length then None else Some(Full)
      ensures error.None? ==> l == old(labelCount) < labelCount && labels[l] == UNBOUND
      ensures error.None? ==> labels[..l] == old(labels[..labelCount])
      ensures l < labelCount || l == UNBOUND
    {
      hide Consistent;
      l := UNBOUND;
      if labelCount < labels.Length {
        l := labelCount;
        labels[labelCount] := UNBOUND;
        labelCount := labelCount + 1;
        if error.None? {
          NewLabelKeeps(items, owners, code[..length], patches[..patchCount], old(labels[..labelCount]), labels[..labelCount]);
        }
      } else {
        Fail(Full);
      }
    }

    /** From here on the label stands for the end of the code so far. */
    method Bind(l: u32)
      requires Valid()
      modifies this`terminated, this`error, labels
      ensures Valid() && !terminated
      ensures old(error).Some? ==> error == old(error)
      ensures old(error).None? ==>
                error == if l < labels.Length && old(labels[l]) == UNBOUND then None else Some(Label)
      ensures labels[..] == if l < labels.Length && old(labels[l]) == UNBOUND then old(labels[..])[l := length] else old(labels[..])
    {
      terminated := false;
      if l < labels.Length && labels[l] == UNBOUND {
        if error.None? && l < labelCount {
          ConsistentBind(items, owners, code[..length], patches[..patchCount], labels[..labelCount], l);
        }
        labels[l] := length;
        assert labels[..labelCount] == if l < labelCount then old(labels[..labelCount])[l := length] else old(labels[..labelCount]);
      } else {
        Fail(Label);
      }
    }

    /** The end of the code becomes a safe point, unless it already is one. */
    method MarkSafePoint()
      requires Valid()
      modifies this`safePointCount, this`error, safePoints
      ensures Valid()
      ensures var points := old(safePoints[..safePointCount]);
              var marked := points != [] && points[|points| - 1] == length;
              && error == (if marked || old(error).Some? || |points| < safePoints.Length then old(error) else Some(Full))
              && safePoints[..safePointCount] == if marked || |points| == safePoints.Length then points else points + [length]
    {
      hide Consistent;
      assert safePointCount > 0 ==> safePoints[..safePointCount][safePointCount - 1] == safePoints[safePointCount - 1];
      if safePointCount > 0 && safePoints[safePointCount - 1] == length { return; }
      if safePointCount < safePoints.Length {
        safePoints[safePointCount] := length;
        safePointCount := safePointCount + 1;
      } else {
        Fail(Full);
      }
    }

    /** Write a branch; one whose label is still ahead waits to be patched. */
    method Jump(opcode: byte, l: u32)
      requires Valid() && Assigned(opcode)
      modifies this`length, this`error, this`terminated, this`items, this`owners, this`patchCount, code, patches
      ensures Sized() && (l < labelCount || l >= labels.Length || error.Some? ==> Valid())
      ensures old(error).Some? ==> error == old(error)
      ensures old(error).None? && (!IsBranch(opcode) || l >= labels.Length) ==> error == Some(Label)
      ensures old(error).None? && IsBranch(opcode) && l < labels.Length && labels[l] == UNBOUND ==>
                && var item := Item(old(length), opcode, Wide, [0], Some(l));
                && error == (if item.End() <= code.Length && old(patchCount) < patches.Length then None else Some(Full))
                && (error.None? ==> items == old(items) + [item] && owners == old(owners) + [|old(items)|])
      ensures old(error).None? && IsBranch(opcode) && l < labels.Length && labels[l] != UNBOUND ==>
                && var displacement := labels[l] - old(length);
                && var item := Item(old(length), opcode, WidthNeeded(OperandKind.Jump, displacement), [displacement], Some(l));
                && error == (if item.End() <= code.Length then None else Some(Full))
                && (error.None? ==> items == old(items) + [item] && owners == old(owners))
    {
      hide Consistent, Encode, Fits, Signature;
      if error.Some? { return; }
      if !IsBranch(opcode) {
        Fail(Label);
        return;
      }
      terminated := IsTerminator(opcode);
      if l >= labels.Length {
        Fail(Label);
        return;
      }
      BranchSignature(opcode);
      if labels[l] != UNBOUND {
        JumpBack(opcode, l, labels[l]);
      } else {
        JumpAhead(opcode, l);
      }
    }

    /** A label behind: its distance is a known operand. */
    method JumpBack(opcode: byte, l: u32, bound: u32)
      requires Valid() && error.None? && Assigned(opcode) && IsBranch(opcode) && Signature(opcode) == [OperandKind.Jump]
      requires l < labels.Length && bound == labels[l] != UNBOUND
      modifies this`length, this`error, this`items, code
      ensures Sized() && (l < labelCount || error.Some? ==> Valid())
      ensures var displacement := labels[l] - old(length);
              var item := Item(old(length), opcode, WidthNeeded(OperandKind.Jump, displacement), [displacement], Some(l));
              && error == (if item.End() <= code.Length then None else Some(Full))
              && (error.None? ==> items == old(items) + [item])
    {
      hide Consistent, Encode, Fits, Signature;
      var displacement := bound - length;
      var width := WidthFor(Signature(opcode), [displacement]);
      NarrowestOfOne(OperandKind.Jump, displacement);
      NarrowestUnique([OperandKind.Jump], [displacement], width, WidthNeeded(OperandKind.Jump, displacement));
      ghost var item := Item(length, opcode, width, [displacement], Some(l));
      ghost var before := code[..length];
      ItemFits(item);
      assert l < labelCount ==> Lands(item, labels[..labelCount]);
      WriteInstruction(opcode, width, [displacement], item);
      if error.None? {
        if l < labelCount { ConsistentAppend(items, owners, before, patches[..patchCount], labels[..labelCount], item); }
        items := items + [item];
      }
    }

    /** A label ahead: two bytes are left free for its distance, with a note where. */
    method JumpAhead(opcode: byte, l: u32)
      requires Valid() && error.None? && Assigned(opcode) && IsBranch(opcode) && Signature(opcode) == [OperandKind.Jump]
      requires l < labels.Length
      modifies this`length, this`error, this`items, this`owners, this`patchCount, code, patches
      ensures Sized() && (l < labelCount || error.Some? ==> Valid())
      ensures var item := Item(old(length), opcode, Wide, [0], Some(l));
              && error == (if item.End() <= code.Length && old(patchCount) < patches.Length then None else Some(Full))
              && (error.None? ==> items == old(items) + [item] && owners == old(owners) + [|old(items)|])
    {
      hide Consistent, Encode, Fits, Signature;
      ghost var item := Item(length, opcode, Wide, [0], Some(l));
      ghost var before := code[..length];
      ItemFits(item);
      var instruction := length;
      WriteInstruction(opcode, Wide, [0], item);
      if error.Some? { return; }
      var patch := Patch(l, instruction, instruction + 2);
      if patchCount < patches.Length {
        if l < labelCount { ConsistentWait(items, owners, before, patches[..patchCount], labels[..labelCount], item, patch); }
        patches[patchCount] := patch;
        patchCount := patchCount + 1;
        assert patches[..patchCount] == old(patches[..patchCount]) + [patch];
        items, owners := items + [item], owners + [|items|];
      } else {
        Fail(Full);
      }
    }

    method FillIn(at: nat, displacement: int)
      requires at + 2 <= length <= code.Length
      modifies code
      ensures code[..length] == Patched(old(code[..length]), at, displacement)
    {
      var bytes := ToLittleEndian(Low32(displacement), 2);
      code[at], code[at + 1] := bytes[0], bytes[1];
    }

    /** Fill in every waiting branch; the code is then complete. */
    method Finish() returns (r: Result<nat, BuildError>)
      requires Valid()
      modifies this`items, this`owners, code
      ensures old(error).Some? ==> r == Err(old(error).value)
      ensures old(error).None? ==> r == (match FirstTrouble(old(items), old(owners), labels[..labelCount], 0)
                                          case None => Ok(length)
                                          case Some(problem) => Err(problem))
      ensures r.Ok? ==> Resolves(old(items), items)
      ensures r.Ok? ==> Finished(items, code[..length], labels[..labelCount])
    {
      hide Encode, Fits, Signature, Laid, AllFit, RestLand, LabelsPlaced, PatchesPoint, FirstTrouble, Finished, Patched;
      if error.Some? { return Err(error.value); }
      var index := 0;
      assert patches[..patchCount][0..] == patches[..patchCount];
      assert owners[0..] == owners;
      ghost var waiting := owners;
      PatchesInside(items, owners, patches[..patchCount]);
      while index < patchCount
        invariant 0 <= index <= patchCount
        invariant Consistent(items, waiting, code[..length], patches[..patchCount][index..], labels[..labelCount])
        invariant Resolves(old(items), items)
        invariant |old(owners)| == patchCount && waiting == old(owners)[index..]
        invariant forall j :: 0 <= j < patchCount ==> old(owners)[j] < |old(items)|
        invariant FirstTrouble(old(items), old(owners), labels[..labelCount], 0) ==
                  FirstTrouble(old(items), old(owners), labels[..labelCount], index)
      {
        ghost var rest := patches[..patchCount][index..];
        assert rest[0] == patches[index] && rest[1..] == patches[..patchCount][index + 1..];
        var patch := patches[index];
        assert patches[..patchCount][index] == patch;
        TroubleAt(old(items), old(owners), patches[..patchCount], labels[..labelCount], index);
        if patch.target >= labels.Length || labels[patch.target] == UNBOUND { return Err(Label); }
        assert rest[0].target < labelCount;
        var displacement := labels[patch.target] - patch.instruction;
        if !(-32768 <= displacement <= 32767) { return Err(JumpTooFar); }
        WaitingSome(items, waiting, rest);
        ConsistentPatch(items, waiting, code[..length], rest, labels[..labelCount]);
        FillIn(patch.operand, displacement);
        items := items[waiting[0] := items[waiting[0]].(values := [displacement])];
        waiting := waiting[1..];
        index := index + 1;
      }
      AllLand(items, waiting, code[..length], patches[..patchCount][index..], labels[..labelCount]);
      r := Ok(length);
    }
  }

  lemma NothingConsistent()
    ensures Consistent([], [], [], [], []) && Ascending([], 0)
  {
    NothingLaid();
    NothingPlaced();
    hide Laid, AllFit, RestLand, LabelsPlaced, PatchesPoint, Ascending;
  }

  lemma NothingLaid()
    ensures Laid([], []) && AllFit([])
  {
    hide Holds, Fits;
  }

  lemma NothingPlaced()
    ensures RestLand([], [], []) && LabelsPlaced([], 0, []) && PatchesPoint([], [], []) && Ascending([], 0)
  {
    hide Lands, Waits, AtItem;
  }

  lemma NarrowestOfOne(kind: OperandKind, value: int)
    ensures Narrowest([kind], [value], WidthNeeded(kind, value))
  {
    assert [kind][0] == kind && [value][0] == value;
    NeededIsNarrowest([kind], [value], WidthNeeded(kind, value));
  }

  lemma NarrowestFits(item: Item)
    requires Assigned(item.opcode) && |item.values| == |Signature(item.opcode)|
    requires Narrowest(Signature(item.opcode), item.values, item.width)
    ensures Fits(item)
  {
    hide Signature, Returns, WidthNeeded;
    forall i | 0 <= i < |Signature(item.opcode)|
      ensures WidthNeeded(Signature(item.opcode)[i], item.values[i]).Bytes() <= item.width.Bytes()
    {
      WidthNeededIs(Signature(item.opcode)[i], item.values[i], item.width);
    }
    ItemFits(item);
  }

  lemma BranchSignature(opcode: byte)
    requires IsBranch(opcode)
    ensures Signature(opcode) == [OperandKind.Jump]
  {}

  lemma PatchesInside(items: seq<Item>, owners: seq<nat>, patches: seq<Patch>)
    requires PatchesPoint(items, owners, patches)
    ensures |owners| == |patches| && forall j :: 0 <= j < |owners| ==> owners[j] < |items|
  {}

  lemma TroubleAt(items: seq<Item>, owners: seq<nat>, patches: seq<Patch>, labels: seq<u32>, index: nat)
    requires PatchesPoint(items, owners, patches) && index < |owners|
    ensures FirstTrouble(items, owners, labels, index) ==
            if patches[index].target >= |labels| || labels[patches[index].target] == UNBOUND then Some(Label)
            else if -32768 <= labels[patches[index].target] - patches[index].instruction <= 32767 then
              FirstTrouble(items, owners, labels, index + 1)
            else Some(JumpTooFar)
  {}

  lemma WaitingSome(items: seq<Item>, owners: seq<nat>, patches: seq<Patch>)
    requires PatchesPoint(items, owners, patches) && patches != []
    ensures owners != [] && owners[0] < |items| && items[owners[0]].target.Some?
  {}

  lemma AllLand(items: seq<Item>, owners: seq<nat>, code: seq<byte>, patches: seq<Patch>, labels: seq<u32>)
    requires Consistent(items, owners, code, patches, labels) && patches == []
    ensures Finished(items, code, labels)
  {
    hide Laid, AllFit;
  }

  /** Finished code: the items' bytes, every branch reaching its label. */
  ghost predicate Finished(items: seq<Item>, code: seq<byte>, labels: seq<u32>) {
    Laid(items, code) && AllFit(items) && LabelsPlaced(items, |code|, labels)
    && forall k :: 0 <= k < |items| ==> Lands(items[k], labels)
  }

  lemma ItemFits(item: Item)
    requires Assigned(item.opcode) && |item.values| == |Signature(item.opcode)|
    requires forall i :: 0 <= i < |Signature(item.opcode)| ==>
               WidthNeeded(Signature(item.opcode)[i], item.values[i]).Bytes() <= item.width.Bytes()
    ensures Fits(item)
  {
    hide Signature;
  }

  lemma NewLabelKeeps(items: seq<Item>, owners: seq<nat>, code: seq<byte>, patches: seq<Patch>, labels: seq<u32>, labels': seq<u32>)
    requires Consistent(items, owners, code, patches, labels) && labels' == labels + [UNBOUND]
    ensures Consistent(items, owners, code, patches, labels')
  {
    hide Laid, AllFit;
    forall k | 0 <= k < |items| && k !in owners ensures Lands(items[k], labels') {
      assert Lands(items[k], labels);
    }
  }

  lemma AppendNext(before: seq<byte>, bytes: seq<byte>, index: nat, capacity: nat)
    requires index < |bytes|
    ensures Clip(Clip(before + bytes[..index], capacity) + [bytes[index]], capacity) == Clip(before + bytes[..index + 1], capacity)
    ensures Overflowed(None, |before| + index + 1, capacity).None? ==> |before + bytes[..index]| < capacity
  {
    ClipTwice(before + bytes[..index], [bytes[index]], capacity);
    assert before + bytes[..index] + [bytes[index]] == before + bytes[..index + 1];
  }

  lemma InThreeParts(before: seq<byte>, item: Item, capacity: nat)
    ensures Clip(Clip(Clip(before + Prefix(item.width), capacity) + [item.opcode], capacity)
                 + EncodeOperands(item.values, item.width), capacity)
         == Clip(before + Encode(item), capacity)
  {
    hide EncodeOperands;
    ClipTwice(before + Prefix(item.width), [item.opcode], capacity);
    ClipTwice(before + Prefix(item.width) + [item.opcode], EncodeOperands(item.values, item.width), capacity);
    assert before + Prefix(item.width) + [item.opcode] + EncodeOperands(item.values, item.width) == before + Encode(item);
  }

  lemma NoOperands(before: seq<byte>, operands: seq<int>, width: Width, capacity: nat)
    requires |before| <= capacity
    ensures Clip(before + EncodeOperands(operands[..0], width), capacity) == before
  {
    assert before + [] == before;
  }

  lemma OperandNext(before: seq<byte>, operands: seq<int>, width: Width, index: nat, capacity: nat)
    requires index < |operands|
    ensures Clip(Clip(before + EncodeOperands(operands[..index], width), capacity) + EncodeOperand(operands[index], width), capacity)
         == Clip(before + EncodeOperands(operands[..index + 1], width), capacity)
  {
    hide EncodeOperand;
    ClipTwice(before + EncodeOperands(operands[..index], width), EncodeOperand(operands[index], width), capacity);
    assert operands[..index + 1][..index] == operands[..index];
    assert before + EncodeOperands(operands[..index], width) + EncodeOperand(operands[index], width)
        == before + EncodeOperands(operands[..index + 1], width);
  }

  /** Safe points are distinct positions in ascending order. */
  ghost predicate Ascending(points: seq<u32>, length: nat) {
    && (forall i :: 0 <= i < |points| ==> points[i] <= length)
    && (forall i, j :: 0 <= i < j < |points| ==> points[i] < points[j])
  }

  /** The operand comes back as it went in exactly if 32 bits hold it. */
  ghost predicate Carries(kind: OperandKind, value: int, ins: Instruction, i: nat)
    requires i < |ins.operands| && i < |ins.signed|
  {
    if IsSigned(kind) then ins.signed[i] == value <==> -0x8000_0000 <= value < 0x8000_0000
    else ins.operands[i] == value <==> 0 <= value < 0x1_0000_0000
  }

  lemma {:induction false} SignExtendIndexed(values: seq<u32>, width: Width, i: nat)
    requires i < |values|
    ensures SignExtendAll(values, width)[i] == SignExtend(values[i], width)
  {
    var last := |values| - 1;
    if i < last { SignExtendIndexed(values[..last], width, i); }
  }

  lemma ItemCarries(item: Item, ins: Instruction, i: nat)
    requires Fits(item) && Denotes(item, ins) && i < |item.values|
    ensures |ins.operands| == |ins.signed| == |item.values|
    ensures Carries(Signature(item.opcode)[i], item.values[i], ins, i)
  {
    hide Signature, SignExtendAll, Encode;
    WideEnoughIsExact(Signature(item.opcode)[i], item.values[i], item.width);
    SignExtendIndexed(ins.operands, item.width, i);
  }

  /** Reading finished code from the front gives back exactly what was written:
      at each item its opcode and its operands, then the next item, then the end. */
  lemma DecodesToWhatWasWritten(items: seq<Item>, code: seq<byte>, labels: seq<u32>, k: nat)
    requires Finished(items, code, labels) && k < |items|
    ensures var r, item := Decode(code, items[k].at), items[k];
            && r.Ok? && r.value.opcode == item.opcode
            && |r.value.operands| == |r.value.signed| == |item.values| == |Signature(item.opcode)|
            && (forall i :: 0 <= i < |item.values| ==> Carries(Signature(item.opcode)[i], item.values[i], r.value, i))
            && items[0].at == 0
            && item.at + r.value.length == if k + 1 < |items| then items[k + 1].at else |code|
  {
    hide Signature, Encode, Carries, Decode;
    var item := items[k];
    assert Fits(item) && Holds(code, item);
    DecodesItem(code, item);
    var ins := Decode(code, item.at).value;
    forall i | 0 <= i < |item.values|
      ensures |ins.operands| == |ins.signed| == |item.values|
      ensures Carries(Signature(item.opcode)[i], item.values[i], ins, i)
    {
      ItemCarries(item, ins, i);
    }
    if k + 1 < |items| { assert items[k + 1].at == items[k].End(); }
  }

  /** Every branch, patched or not, decodes to the position its label was bound
      to, which is where an instruction starts or the code ends, exactly if the way
      there fits 32 signed bits; in code of up to 2^31 bytes less one it always does. */
  lemma BranchesReachTheirLabels(items: seq<Item>, code: seq<byte>, labels: seq<u32>, k: nat)
    requires Finished(items, code, labels) && k < |items| && items[k].target.Some?
    ensures var r, l := Decode(code, items[k].at), items[k].target.value;
            && r.Ok? && |r.value.signed| == 1 && l < |labels|
            && (items[k].at + r.value.signed[0] == labels[l] <==> -0x8000_0000 <= labels[l] - items[k].at < 0x8000_0000)
            && (|code| < 0x8000_0000 ==> items[k].at + r.value.signed[0] == labels[l])
            && AtItem(items, |code|, labels[l])
  {
    hide Signature, Encode, Decode;
    DecodesToWhatWasWritten(items, code, labels, k);
    assert Lands(items[k], labels) && Holds(code, items[k]);
    BranchSignature(items[k].opcode);
    var l := items[k].target.value;
    assert AtItem(items, |code|, labels[l]);
    PlacedInside(items, code, labels[l]);
    assert Carries(Signature(items[k].opcode)[0], items[k].values[0], Decode(code, items[k].at).value, 0);
  }

  lemma PlacedInside(items: seq<Item>, code: seq<byte>, position: int)
    requires Laid(items, code) && AtItem(items, |code|, position)
    ensures 0 <= position <= |code|
  {
    hide Encode;
    if position != |code| {
      var k :| 0 <= k < |items| && items[k].at == position;
      assert Holds(code, items[k]);
    }
  }
}
