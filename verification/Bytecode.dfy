/** The instruction encoding: opcodes, their operand signatures, and the decoder. */
module Bytecode {
  import opened Words

  datatype Width = Narrow | Wide | ExtraWide {
    function Bytes(): (n: nat)
      ensures 1 <= n <= 4
    {
      match this
      case Narrow => 1
      case Wide => 2
      case ExtraWide => 4
    }
  }

  /** Bytes `count` operands take. */
  function Span(width: Width, count: nat): nat {
    match width
    case Narrow => count
    case Wide => 2 * count
    case ExtraWide => 4 * count
  }

  const PREFIX_WIDE: byte := 0xFE
  const PREFIX_EXTRA_WIDE: byte := 0xFF

  datatype OperandKind = Register | Constant | Immediate | Count | Jump | Depth

  // Opcodes are named by their byte, which is how the format numbers them.
  const POP_CONTEXT: byte := 0x65
  const PUSH_CONTEXT: byte := 0x64
  const PUSH_OBJECT_CONTEXT: byte := 0xB2
  const CALL: byte := 0x80
  const CALL_PROPERTY: byte := 0x81
  const CONSTRUCT: byte := 0x82
  const TAIL_CALL: byte := 0xDF
  const CALL_SUPER: byte := 0xAD
  const JUMP: byte := 0x90
  const RETURN: byte := 0x97
  const THROW: byte := 0x98

  /** The bytes that are opcodes. */
  predicate Assigned(op: byte) {
    || op <= 0x06 || 0x10 <= op <= 0x12 || 0x20 <= op <= 0x2B || 0x30 <= op <= 0x49
    || 0x50 <= op <= 0x55 || 0x60 <= op <= 0x79 || 0x80 <= op <= 0x83 || 0x90 <= op <= 0xE3
  }

  /** The operands an assigned opcode takes. */
  function Signature(op: byte): (kinds: seq<OperandKind>)
    ensures |kinds| <= 3
  {
    if IsBranch(op) then [Jump]
    else if op in {0x64, 0x78, 0x9A} then [Count]
    else if op == 0xAD then [Register, Count]
    else if 0x80 <= op <= 0x82 || op == 0xDF then [Register, Register, Count]
    else if op in {0x62, 0x63, 0x67} then [Count, Depth]
    else if op in {0xA1, 0xA2} then [Constant, Count, Depth]
    else if op == 0xA3 then [Constant, Count, Count]
    else if op in {0xA4, 0xA5} then [Register, Constant, Count]
    else if op == 0xAA then [Register, Constant, Immediate]
    else if op == 0xAB then [Register, Register, Immediate]
    else if op in {0x83, 0xD5, 0xE3} then [Register, Register, Register]
    else if op == 0xE1 then [Immediate, Register]
    else if op in {0xBE, 0xD8} then [Constant, Immediate]
    else if op in {0xDB, 0xDD} then [Constant, Register]
    else if op in {0xA7, 0xC4} then [Register, Immediate]
    else if op in {0x05, 0x68, 0x79, 0xA6, 0xC7} then [Immediate]
    else if op in {0x3B, 0x3C, 0x50, 0x52, 0x75, 0xA8, 0xCD} then [Register, Constant]
    else if op in {0x12, 0x3D, 0x3E, 0x53, 0x6D, 0x76, 0xA9, 0xB4, 0xB5, 0xB8, 0xCE, 0xD2, 0xD4, 0xDC, 0xE0}
    then [Register, Register]
    else if TakesConstant(op) then [Constant]
    else if TakesRegister(op) then [Register]
    else []
  }

  predicate TakesConstant(op: byte) {
    || op in {0x06, 0x3A, 0x3F, 0x54, 0x60, 0x61, 0x66, 0x6A, 0x6F, 0xAC, 0xC2, 0xCC, 0xD6, 0xD7, 0xD9, 0xDA}
    || 0x9B <= op <= 0x9F
  }

  predicate TakesRegister(op: byte) {
    || op in {0x10, 0x11, 0x39, 0x51, 0x55, 0x77, 0xAF, 0xB9, 0xBF, 0xC0, 0xC3, 0xCB, 0xD0, 0xD1, 0xD3, 0xDE}
    || 0x20 <= op <= 0x2B || 0x40 <= op <= 0x49 || 0x72 <= op <= 0x74
  }

  /** Control never falls through to what follows. */
  predicate IsTerminator(op: byte) { op == RETURN || op == THROW || op == JUMP }

  /** The operand is a displacement that control may take. */
  predicate IsBranch(op: byte) { 0x90 <= op <= 0x96 || op == 0x99 }

  /** A decoded instruction, with the operand kinds of its opcode's signature. */
  datatype Instruction = Instruction(
    opcode: byte,
    kinds: seq<OperandKind>,
    width: Width,
    operands: seq<u32>,
    signed: seq<int>,
    length: nat)

  datatype DecodeError = UnknownOpcode | TruncatedOperand | MisplacedPrefix

  /** One past the largest unsigned value of a width. */
  function Modulus(width: Width): (m: int)
    ensures m > 0
  {
    match width
    case Narrow => 0x100
    case Wide => 0x1_0000
    case ExtraWide => 0x1_0000_0000
  }

  lemma ModulusIsPower(width: Width)
    ensures Modulus(width) == Pow256(width.Bytes())
  {
    assert Pow256(1) == 256;
    assert Pow256(2) == 256 * Pow256(1);
    assert Pow256(3) == 256 * Pow256(2);
    assert Pow256(4) == 256 * Pow256(3);
  }

  /** A value read at `width`, as a two's-complement number. */
  function SignExtend(value: nat, width: Width): (r: int)
    ensures value < Modulus(width) ==> -Modulus(width) <= 2 * r < Modulus(width)
    ensures r == value || r == value - Modulus(width)
  {
    if 2 * value < Modulus(width) then value else value - Modulus(width)
  }

  function WidthOf(first: byte): Width {
    if first == PREFIX_WIDE then Wide
    else if first == PREFIX_EXTRA_WIDE then ExtraWide
    else Narrow
  }

  /** Operand `i` of an instruction whose operands start at `at`. */
  function OperandAt(code: seq<byte>, at: nat, width: Width, i: nat): (value: u32)
    requires at + Span(width, i + 1) <= |code|
    ensures value < Modulus(width)
  {
    var bytes := code[at + Span(width, i)..at + Span(width, i + 1)];
    assert |bytes| == width.Bytes();
    LittleEndianBound(bytes);
    ModulusIsPower(width);
    FromLittleEndian(bytes)
  }

  /** The first `count` operands starting at `at`. */
  function OperandsAt(code: seq<byte>, at: nat, width: Width, count: nat): (values: seq<u32>)
    requires at + Span(width, count) <= |code|
    ensures |values| == count
  {
    if count == 0 then []
    else
      OperandsAt(code, at, width, count - 1) + [OperandAt(code, at, width, count - 1)]
  }

  function SignExtendAll(values: seq<u32>, width: Width): (r: seq<int>)
    ensures |r| == |values|
  {
    if values == [] then []
    else
      var last := |values| - 1;
      SignExtendAll(values[..last], width) + [SignExtend(values[last], width)]
  }

  lemma SignExtendAppend(values: seq<u32>, value: u32, width: Width)
    ensures SignExtendAll(values + [value], width) == SignExtendAll(values, width) + [SignExtend(value, width)]
  {
    assert (values + [value])[..|values|] == values;
  }

  /** The instruction at `offset`: its opcode, operands and encoded length. */
  function Decode(code: seq<byte>, offset: nat): (r: Result<Instruction, DecodeError>)
    ensures r.Ok? ==>
              && offset < |code|
              && 1 <= r.value.length <= |code| - offset
              && Assigned(r.value.opcode)
              && r.value.kinds == Signature(r.value.opcode)
              && |r.value.operands| == |r.value.signed| == |r.value.kinds|
  {
    if offset >= |code| then Err(TruncatedOperand)
    else
      var width := WidthOf(code[offset]);
      var at := if width.Narrow? then offset else offset + 1;
      if at >= |code| then Err(TruncatedOperand)
      else if code[at] == PREFIX_WIDE || code[at] == PREFIX_EXTRA_WIDE then Err(MisplacedPrefix)
      else if !Assigned(code[at]) then Err(UnknownOpcode)
      else
        DecodeOperands(code, at, width, Signature(code[at]), at - offset)
  }

  /** The rest of an instruction whose opcode is at `at`, after `prefix` bytes. */
  function DecodeOperands(code: seq<byte>, at: nat, width: Width, kinds: seq<OperandKind>, prefix: nat)
    : (r: Result<Instruction, DecodeError>)
    requires at < |code|
    ensures r.Ok? ==>
              && r.value.opcode == code[at] && r.value.kinds == kinds
              && |r.value.operands| == |r.value.signed| == |kinds|
              && r.value.length == prefix + 1 + Span(width, |kinds|) <= prefix + |code| - at
  {
    if at + 1 + Span(width, |kinds|) > |code| then Err(TruncatedOperand)
    else
      var operands := OperandsAt(code, at + 1, width, |kinds|);
      Ok(Instruction(code[at], kinds, width, operands, SignExtendAll(operands, width),
                     prefix + 1 + Span(width, |kinds|)))
  }

  /** The decoder as it runs: a cursor, one loop for narrow operands and a
      nested one for the wider forms. */
  method DecodeAt(code: seq<byte>, offset: nat) returns (r: Result<Instruction, DecodeError>)
    ensures r == Decode(code, offset)
  {
    var cursor := offset;
    if cursor >= |code| { return Err(TruncatedOperand); }
    var width := WidthOf(code[cursor]);
    if !width.Narrow? { cursor := cursor + 1; }
    if cursor >= |code| { return Err(TruncatedOperand); }
    var opcode := code[cursor];
    if opcode == PREFIX_WIDE || opcode == PREFIX_EXTRA_WIDE { return Err(MisplacedPrefix); }
    if !Assigned(opcode) { return Err(UnknownOpcode); }
    r := ReadInstruction(code, cursor, width, Signature(opcode), cursor - offset);
  }

  method ReadInstruction(code: seq<byte>, at: nat, width: Width, kinds: seq<OperandKind>, prefix: nat)
    returns (r: Result<Instruction, DecodeError>)
    requires at < |code|
    ensures r == DecodeOperands(code, at, width, kinds, prefix)
  {
    var operands := ReadOperands(code, at + 1, width, |kinds|);
    if operands.None? { return Err(TruncatedOperand); }
    r := Ok(Instruction(code[at], kinds, width, operands.value.0, operands.value.1,
                        prefix + 1 + Span(width, |kinds|)));
  }

  /** The operand loop, which stops at the first operand the code cuts short. */
  method ReadOperands(code: seq<byte>, at: nat, width: Width, count: nat)
    returns (r: Option<(seq<u32>, seq<int>)>)
    requires at <= |code|
    ensures r.Some? <==> at + Span(width, count) <= |code|
    ensures r.Some? ==> r.value.0 == OperandsAt(code, at, width, count)
    ensures r.Some? ==> r.value.1 == SignExtendAll(r.value.0, width)
  {
    var operands: seq<u32>, signed: seq<int> := [], [];
    var index, cursor, size := 0, at, width.Bytes();
    if width.Narrow? && cursor + count > |code| { return None; }
    while index < count
      invariant 0 <= index <= count
      invariant cursor == at + Span(width, index) <= |code|
      invariant operands == OperandsAt(code, at, width, index)
      invariant signed == SignExtendAll(operands, width)
    {
      assert Span(width, index + 1) <= Span(width, count);
      if cursor + size > |code| { return None; }
      var value := ReadOperandAt(code, at, width, index);
      assert OperandsAt(code, at, width, index + 1) == OperandsAt(code, at, width, index) + [value];
      SignExtendAppend(operands, value, width);
      operands := operands + [value];
      signed := signed + [SignExtend(value, width)];
      cursor := cursor + size;
      index := index + 1;
    }
    r := Some((operands, signed));
  }

  method ReadOperandAt(code: seq<byte>, at: nat, width: Width, i: nat) returns (value: u32)
    requires at + Span(width, i + 1) <= |code|
    ensures value == OperandAt(code, at, width, i)
  {
    value := ReadOperand(code[at + Span(width, i)..at + Span(width, i + 1)], width);
  }

  method ReadOperand(bytes: seq<byte>, width: Width) returns (value: u32)
    requires |bytes| == width.Bytes()
    ensures value == FromLittleEndian(bytes)
  {
    var index, weight: int := 0, 1;
    var total: int := 0;
    while index < |bytes|
      invariant 0 <= index <= |bytes|
      invariant weight == Pow256(index)
      invariant total == FromLittleEndian(bytes[..index])
    {
      assert bytes[..index + 1] == bytes[..index] + [bytes[index]];
      LittleEndianAppend(bytes[..index], bytes[index]);
      total := total + weight * bytes[index];
      weight := 256 * weight;
      index := index + 1;
    }
    assert bytes[..index] == bytes;
    LittleEndianBound(bytes);
    ModulusIsPower(width);
    value := total;
  }

  /** What decodes at each byte of a function's code. */
  type Listing = seq<Option<Instruction>>

  /** Instructions lie inside the code and carry one value for each operand. */
  ghost predicate Shaped(ls: Listing) {
    forall p :: 0 <= p < |ls| && ls[p].Some? ==>
      var ins := ls[p].value;
      && 1 <= ins.length <= |ls| - p
      && |ins.operands| == |ins.signed| == |ins.kinds|
      && (IsBranch(ins.opcode) ==> |ins.kinds| == 1)
      && (CountsRegisterRun(ins.opcode) ==> |ins.kinds| == 3)
  }

  /** Calls whose last operand counts a run of registers from the one before it. */
  predicate CountsRegisterRun(op: byte) {
    op == CALL || op == CALL_PROPERTY || op == TAIL_CALL || op == CONSTRUCT
  }

  function ListingAt(code: seq<byte>, p: nat): Option<Instruction> {
    match Decode(code, p)
    case Ok(ins) => Some(ins)
    case Err(_) => None
  }

  function Disassemble(code: seq<byte>): (ls: Listing)
    ensures |ls| == |code|
    ensures forall p :: 0 <= p < |code| ==> ls[p] == ListingAt(code, p)
    ensures Shaped(ls)
  {
    seq(|code|, p requires 0 <= p < |code| => ListingAt(code, p))
  }
}
