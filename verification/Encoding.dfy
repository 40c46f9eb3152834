/** The encoder's view of an instruction, and that decoding undoes it. */
module Encoding {
  import opened Words
  import opened Bytecode

  /** One written instruction: where it starts, its opcode, operand width and
      operand values, and the label it jumps to if it is a branch. */
  datatype Item = Item(at: nat, opcode: byte, width: Width, values: seq<int>, target: Option<nat>) {
    function Length(): nat { (if width.Narrow? then 1 else 2) + Span(width, |values|) }

    function End(): nat { at + Length() }
  }

  /** A value truncated to its low 32 bits. */
  function Low32(value: int): u32 { value % 0x1_0000_0000 }

  function Prefix(width: Width): seq<byte> {
    match width
    case Narrow => []
    case Wide => [PREFIX_WIDE]
    case ExtraWide => [PREFIX_EXTRA_WIDE]
  }

  function EncodeOperand(value: int, width: Width): (bytes: seq<byte>)
    ensures |bytes| == width.Bytes()
  {
    ToLittleEndian(Low32(value), width.Bytes())
  }

  function EncodeOperands(values: seq<int>, width: Width): (bytes: seq<byte>)
    ensures |bytes| == Span(width, |values|)
  {
    if values == [] then []
    else EncodeOperands(values[..|values| - 1], width) + EncodeOperand(values[|values| - 1], width)
  }

  /** The bytes before the operands. */
  function Head(item: Item): seq<byte> { Prefix(item.width) + [item.opcode] }

  function Encode(item: Item): (bytes: seq<byte>)
    ensures |bytes| == item.Length()
  {
    Head(item) + EncodeOperands(item.values, item.width)
  }

  /** What an operand of `width` bytes reads back as. */
  function ReadBack(value: int, width: Width): (r: u32)
    ensures r < Modulus(width)
  {
    Low32(value) % Modulus(width)
  }

  /** The values read back from the operand bytes of `values`. */
  ghost predicate ReadBackAll(values: seq<int>, width: Width, operands: seq<u32>) {
    |operands| == |values| && forall i :: 0 <= i < |values| ==> operands[i] == ReadBack(values[i], width)
  }

  /** The slice of each operand. */
  lemma SpanNext(width: Width, n: nat)
    ensures Span(width, n + 1) == Span(width, n) + width.Bytes()
  {}

  lemma {:induction false} OperandSlices(code: seq<byte>, at: nat, values: seq<int>, width: Width, i: nat)
    requires i < |values| && at + Span(width, |values|) <= |code|
    requires code[at..at + Span(width, |values|)] == EncodeOperands(values, width)
    ensures code[at + Span(width, i)..at + Span(width, i + 1)] == EncodeOperand(values[i], width)
  {
    var last := |values| - 1;
    assert EncodeOperands(values, width) == EncodeOperands(values[..last], width) + EncodeOperand(values[last], width);
    SpanNext(width, last);
    SpanNext(width, i);
    hide EncodeOperand, EncodeOperands, Span;
    var middle, end := at + Span(width, last), at + Span(width, |values|);
    SliceSplits(code, at, middle, end, EncodeOperands(values[..last], width), EncodeOperand(values[last], width));
    if i < last { OperandSlices(code, at, values[..last], width, i); }
  }

  lemma {:induction false} OperandsIndexed(code: seq<byte>, at: nat, width: Width, count: nat, i: nat)
    requires i < count && at + Span(width, count) <= |code|
    ensures OperandsAt(code, at, width, count)[i] == OperandAt(code, at, width, i)
  {
    if i < count - 1 { OperandsIndexed(code, at, width, count - 1, i); }
  }

  lemma OperandReadsBack(value: int, width: Width)
    ensures FromLittleEndian(EncodeOperand(value, width)) == ReadBack(value, width)
  {
    LittleEndianWriteRead(Low32(value), width.Bytes());
    ModulusIsPower(width);
  }

  lemma OperandDecodes(code: seq<byte>, at: nat, values: seq<int>, width: Width, i: nat)
    requires i < |values| && at + Span(width, |values|) <= |code|
    requires code[at..at + Span(width, |values|)] == EncodeOperands(values, width)
    ensures OperandAt(code, at, width, i) == ReadBack(values[i], width)
  {
    OperandSlices(code, at, values, width, i);
    OperandReadsBack(values[i], width);
  }

  lemma OperandsDecode(code: seq<byte>, at: nat, values: seq<int>, width: Width)
    requires at + Span(width, |values|) <= |code|
    requires code[at..at + Span(width, |values|)] == EncodeOperands(values, width)
    ensures ReadBackAll(values, width, OperandsAt(code, at, width, |values|))
  {
    var operands := OperandsAt(code, at, width, |values|);
    forall i | 0 <= i < |values| ensures operands[i] == ReadBack(values[i], width) {
      OperandDecodes(code, at, values, width, i);
      OperandsIndexed(code, at, width, |values|, i);
    }
  }

  /** The bytes of an item are where it says it starts. */
  predicate Holds(code: seq<byte>, item: Item) {
    item.End() <= |code| && code[item.at..item.End()] == Encode(item)
  }

  /** An item whose operand count fits its opcode. */
  predicate Proper(item: Item) {
    Assigned(item.opcode) && |item.values| == |Signature(item.opcode)|
  }

  /** The instruction an item decodes to. */
  ghost predicate Denotes(item: Item, ins: Instruction) {
    && ins.opcode == item.opcode && ins.kinds == Signature(item.opcode) && ins.width == item.width
    && ins.length == item.Length()
    && ReadBackAll(item.values, item.width, ins.operands)
    && ins.signed == SignExtendAll(ins.operands, item.width)
  }

  /** The head tells the decoder the width and the opcode. */
  lemma HeadReads(code: seq<byte>, at: nat, item: Item)
    requires Assigned(item.opcode) && at + |Head(item)| <= |code| && code[at..at + |Head(item)|] == Head(item)
    ensures WidthOf(code[at]) == item.width
    ensures |Prefix(item.width)| == (if item.width.Narrow? then 0 else 1)
    ensures code[at + |Prefix(item.width)|] == item.opcode
  {
    var head, p := Head(item), |Prefix(item.width)|;
    assert code[at] == code[at..at + |head|][0] && code[at + p] == code[at..at + |head|][p];
  }

  lemma DecodesFrom(code: seq<byte>, at: nat, width: Width, opcode: byte)
    requires var p := if width.Narrow? then 0 else 1;
             at + p < |code| && WidthOf(code[at]) == width && code[at + p] == opcode && Assigned(opcode)
    ensures var p := if width.Narrow? then 0 else 1;
            Decode(code, at) == DecodeOperands(code, at + p, width, Signature(opcode), p)
  {
    hide Signature, DecodeOperands;
    var p := if width.Narrow? then 0 else 1;
    assert opcode != PREFIX_WIDE && opcode != PREFIX_EXTRA_WIDE;
    assert Decode(code, at) == DecodeOperands(code, at + p, width, Signature(code[at + p]), p);
  }

  /** Decoding undoes encoding. */
  lemma DecodesItem(code: seq<byte>, item: Item)
    requires Proper(item) && Holds(code, item)
    ensures Decode(code, item.at).Ok? && Denotes(item, Decode(code, item.at).value)
  {
    hide Decode, DecodeOperands, Signature, EncodeOperands, OperandsAt, Denotes, ReadBackAll;
    var at, cut := item.at, item.at + |Head(item)|;
    SliceSplits(code, at, cut, item.End(), Head(item), EncodeOperands(item.values, item.width));
    HeadReads(code, at, item);
    DecodesFrom(code, at, item.width, item.opcode);
    OperandsDecode(code, cut, item.values, item.width);
    TailDenotes(code, at, item);
  }

  lemma TailDenotes(code: seq<byte>, at: nat, item: Item)
    requires Proper(item) && at + item.Length() <= |code| && code[at + |Prefix(item.width)|] == item.opcode
    requires ReadBackAll(item.values, item.width, OperandsAt(code, at + |Head(item)|, item.width, |item.values|))
    ensures var p := |Prefix(item.width)|;
            var r := DecodeOperands(code, at + p, item.width, Signature(item.opcode), p);
            r.Ok? && Denotes(item, r.value)
  {
    hide Signature, OperandsAt, ReadBackAll, SignExtendAll;
  }

  // ----- widths -----

  predicate IsSigned(kind: OperandKind) { kind.Jump? || kind.Immediate? }

  /** The narrowest width for one operand. */
  function WidthNeeded(kind: OperandKind, value: int): Width {
    if IsSigned(kind) then
      if -128 <= value <= 127 then Narrow else if -32768 <= value <= 32767 then Wide else ExtraWide
    else
      if 0 <= value <= 255 then Narrow else if 0 <= value <= 65535 then Wide else ExtraWide
  }

  /** An operand written in this many bytes and read again is the operand written. */
  ghost predicate Returns(kind: OperandKind, value: int, width: Width) {
    var word := FromLittleEndian(EncodeOperand(value, width));
    value == if IsSigned(kind) then SignExtend(word, width) else word
  }

  /** The operands 32 bits hold. */
  predicate InWord(kind: OperandKind, value: int) {
    if IsSigned(kind) then -0x8000_0000 <= value < 0x8000_0000 else 0 <= value < 0x1_0000_0000
  }

  /** Wide enough to read every operand back, or there is no wider form; and at
      every narrower width some operand is lost. */
  ghost predicate Narrowest(kinds: seq<OperandKind>, operands: seq<int>, width: Width)
    requires |operands| == |kinds|
  {
    && (width == ExtraWide || forall i :: 0 <= i < |kinds| ==> Returns(kinds[i], operands[i], width))
    && forall narrower: Width :: narrower.Bytes() < width.Bytes() ==> Loses(kinds, operands, narrower)
  }

  ghost predicate Loses(kinds: seq<OperandKind>, operands: seq<int>, width: Width)
    requires |operands| == |kinds|
  {
    exists i :: 0 <= i < |kinds| && !Returns(kinds[i], operands[i], width)
  }

  /** The bounds the encoder tests are those of reading back. */
  lemma WidthNeededIs(kind: OperandKind, value: int, width: Width)
    ensures WidthNeeded(kind, value).Bytes() <= width.Bytes() <==> width == ExtraWide || Returns(kind, value, width)
    ensures InWord(kind, value) <==> Returns(kind, value, ExtraWide)
  {
    NeededReturns(kind, value, width);
    NeededReturns(kind, value, ExtraWide);
  }

  lemma NeededReturns(kind: OperandKind, value: int, width: Width)
    ensures Returns(kind, value, width) <==>
            if IsSigned(kind) then -Modulus(width) <= 2 * value < Modulus(width) else 0 <= value < Modulus(width)
  {
    hide FromLittleEndian, EncodeOperand;
    OperandReadsBack(value, width);
    if IsSigned(kind) && -Modulus(width) <= 2 * value < Modulus(width) { SignedIsExact(value, width); }
    if !IsSigned(kind) && 0 <= value < Modulus(width) { UnsignedIsExact(value, width); }
    hide ReadBack;
  }

  lemma UnsignedIsExact(value: int, width: Width)
    requires 0 <= value < Modulus(width)
    ensures ReadBack(value, width) == value
  {
    DivisionUnique(value, 0x1_0000_0000, 0, value);
    DivisionUnique(value, Modulus(width), 0, value);
  }

  lemma NeededIsNarrowest(kinds: seq<OperandKind>, operands: seq<int>, width: Width)
    requires |operands| == |kinds|
    requires forall i :: 0 <= i < |kinds| ==> WidthNeeded(kinds[i], operands[i]).Bytes() <= width.Bytes()
    requires width == Narrow || exists i :: 0 <= i < |kinds| && WidthNeeded(kinds[i], operands[i]) == width
    ensures Narrowest(kinds, operands, width)
    ensures forall i :: 0 <= i < |kinds| && InWord(kinds[i], operands[i]) ==> Returns(kinds[i], operands[i], width)
  {
    hide WidthNeeded, Returns, InWord;
    forall i | 0 <= i < |kinds|
      ensures width == ExtraWide || Returns(kinds[i], operands[i], width)
      ensures InWord(kinds[i], operands[i]) ==> Returns(kinds[i], operands[i], width)
    {
      WidthNeededIs(kinds[i], operands[i], width);
    }
    if width != Narrow {
      var i :| 0 <= i < |kinds| && WidthNeeded(kinds[i], operands[i]) == width;
      forall narrower: Width | narrower.Bytes() < width.Bytes() ensures Loses(kinds, operands, narrower) {
        WidthNeededIs(kinds[i], operands[i], narrower);
      }
    }
  }

  lemma LosesNarrower(kinds: seq<OperandKind>, operands: seq<int>, width: Width, other: Width)
    requires |operands| == |kinds| && Narrowest(kinds, operands, other) && width.Bytes() < other.Bytes()
    ensures !Narrowest(kinds, operands, width)
  {
    hide Returns;
    assert Loses(kinds, operands, width);
  }

  /** There is one narrowest width. */
  lemma NarrowestUnique(kinds: seq<OperandKind>, operands: seq<int>, width: Width, other: Width)
    requires |operands| == |kinds| && Narrowest(kinds, operands, width) && Narrowest(kinds, operands, other)
    ensures width == other
  {
    hide Returns;
    if width.Bytes() < other.Bytes() { LosesNarrower(kinds, operands, width, other); }
    if other.Bytes() < width.Bytes() { LosesNarrower(kinds, operands, other, width); }
  }

  /** The one width an instruction with these operands is written at. */
  method WidthFor(kinds: seq<OperandKind>, operands: seq<int>) returns (width: Width)
    requires |operands| == |kinds|
    ensures Narrowest(kinds, operands, width)
    ensures forall i :: 0 <= i < |kinds| && InWord(kinds[i], operands[i]) ==> Returns(kinds[i], operands[i], width)
    ensures forall other :: Narrowest(kinds, operands, other) ==> other == width
  {
    hide Returns, InWord, Narrowest, WidthNeeded;
    width := Narrow;
    var index := 0;
    while index < |kinds|
      invariant 0 <= index <= |kinds|
      invariant forall i :: 0 <= i < index ==> WidthNeeded(kinds[i], operands[i]).Bytes() <= width.Bytes()
      invariant width == Narrow || exists i :: 0 <= i < index && WidthNeeded(kinds[i], operands[i]) == width
    {
      var needed := WidthNeeded(kinds[index], operands[index]);
      if needed.Bytes() > width.Bytes() { width := needed; }
      index := index + 1;
    }
    NeededIsNarrowest(kinds, operands, width);
    forall other | Narrowest(kinds, operands, other) ensures other == width {
      NarrowestUnique(kinds, operands, width, other);
    }
  }

  /** An operand read back at a width wide enough for it is the operand written. */
  lemma WideEnoughIsExact(kind: OperandKind, value: int, width: Width)
    requires WidthNeeded(kind, value).Bytes() <= width.Bytes()
    ensures !IsSigned(kind) && 0 <= value < 0x1_0000_0000 ==> ReadBack(value, width) == value
    ensures IsSigned(kind) && -0x8000_0000 <= value < 0x8000_0000 ==> SignExtend(ReadBack(value, width), width) == value
    ensures -0x8000_0000 <= SignExtend(ReadBack(value, width), width) < 0x8000_0000
  {
    if IsSigned(kind) && -0x8000_0000 <= value < 0x8000_0000 { SignedIsExact(value, width); }
  }

  lemma SignedIsExact(value: int, width: Width)
    requires -Modulus(width) <= 2 * value < Modulus(width)
    ensures SignExtend(ReadBack(value, width), width) == value
  {
    var m := Modulus(width);
    LowPart(value, m, match width case Narrow => 0x100_0000 case Wide => 0x1_0000 case ExtraWide => 1);
  }

  /** The low part of the low 32 bits is that of the number itself. */
  lemma LowPart(value: int, m: int, rest: int)
    requires m > 0 && rest > 0 && m * rest == 0x1_0000_0000 && -m <= 2 * value < m && m <= 0x1_0000_0000
    ensures Low32(value) % m == if value >= 0 then value else value + m
  {
    if value >= 0 {
      DivisionUnique(value, 0x1_0000_0000, 0, value);
      DivisionUnique(value, m, 0, value);
    } else {
      DivisionUnique(value, 0x1_0000_0000, -1, value + 0x1_0000_0000);
      assert m * (rest - 1) == m * rest - m;
      DivisionUnique(value + 0x1_0000_0000, m, rest - 1, value + m);
    }
  }
}
