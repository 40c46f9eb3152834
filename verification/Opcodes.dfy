/** The instruction set as a table in the order of its opcodes. */
module Opcodes {
  import opened Words
  import opened Bytecode

  /** A character for each byte: a full stop where there is no opcode, otherwise its
      operands and what becomes of control. */
  function Row(high: nat): (row: string)
    ensures |row| == 16
  {
    match high
    case 0 => "-----ic........."
    case 1 => "rrA............."
    case 2 => "rrrrrrrrrrrr...."
    case 3 => "---------rcBBAAc"
    case 4 => "rrrrrrrrrr......"
    case 5 => "BrBAcr.........."
    case 6 => "ccCCn-cCi-c--A-c"
    case 7 => "--rrrBArni......"
    case 8 => "DDDE............"
    case 9 => "Jjjjjjjttjnccccc"
    case 10 => "-FFGHHiIBAKLcM-r"
    case 11 => "----AA--Ar----Nr"
    case 12 => "r-crI--i---rcBA-"
    case 13 => "rrArAEccNccOAOrD"
    case 14 => "AP-E............"
    case _ => "................"
  }

  function Kinds(mark: char): seq<OperandKind> {
    match mark
    case 'c' => [Constant]
    case 'r' => [Register]
    case 'n' => [Count]
    case 'i' => [Immediate]
    case 'j' => [Jump]
    case 'J' => [Jump]
    case 'A' => [Register, Register]
    case 'B' => [Register, Constant]
    case 'C' => [Count, Depth]
    case 'D' => [Register, Register, Count]
    case 'E' => [Register, Register, Register]
    case 'F' => [Constant, Count, Depth]
    case 'G' => [Constant, Count, Count]
    case 'H' => [Register, Constant, Count]
    case 'I' => [Register, Immediate]
    case 'K' => [Register, Constant, Immediate]
    case 'L' => [Register, Register, Immediate]
    case 'M' => [Register, Count]
    case 'N' => [Constant, Immediate]
    case 'O' => [Constant, Register]
    case 'P' => [Immediate, Register]
    case _ => []
  }

  /** What the decoder and the verifier hold of a byte is what the table says. */
  predicate Agrees(b: byte, mark: char) {
    && (Assigned(b) <==> mark != '.')
    && (mark != '.' ==> Some(Signature(b)) == Some(Kinds(mark)))
    && (IsBranch(b) <==> mark == 'j' || mark == 'J') && (IsTerminator(b) <==> mark == 'J' || mark == 't')
  }

  lemma RowAgrees0(low: nat)
    requires low < 16
    ensures Agrees(0x00 + low, Row(0)[low])
  {}

  lemma RowAgrees1(low: nat)
    requires low < 16
    ensures Agrees(0x10 + low, Row(1)[low])
  {}

  lemma RowAgrees2(low: nat)
    requires low < 16
    ensures Agrees(0x20 + low, Row(2)[low])
  {}

  lemma LowAgrees3(low: nat)
    requires low < 8
    ensures Agrees(0x30 + low, Row(3)[low])
  {}

  lemma HighAgrees3(low: nat)
    requires 8 <= low < 16
    ensures Agrees(0x30 + low, Row(3)[low])
  {}

  lemma RowAgrees4(low: nat)
    requires low < 16
    ensures Agrees(0x40 + low, Row(4)[low])
  {}

  lemma RowAgrees5(low: nat)
    requires low < 16
    ensures Agrees(0x50 + low, Row(5)[low])
  {}

  lemma LowAgrees6(low: nat)
    requires low < 8
    ensures Agrees(0x60 + low, Row(6)[low])
  {}

  lemma HighAgrees6(low: nat)
    requires 8 <= low < 16
    ensures Agrees(0x60 + low, Row(6)[low])
  {}

  lemma LowAgrees7(low: nat)
    requires low < 8
    ensures Agrees(0x70 + low, Row(7)[low])
  {}

  lemma HighAgrees7(low: nat)
    requires 8 <= low < 16
    ensures Agrees(0x70 + low, Row(7)[low])
  {}

  lemma RowAgrees8(low: nat)
    requires low < 16
    ensures Agrees(0x80 + low, Row(8)[low])
  {}

  lemma RowAgrees9(low: nat)
    requires low < 16
    ensures Agrees(0x90 + low, Row(9)[low])
  {}

  lemma LowAgreesA(low: nat)
    requires low < 8
    ensures Agrees(0xA0 + low, Row(10)[low])
  {}

  lemma HighAgreesA(low: nat)
    requires 8 <= low < 16
    ensures Agrees(0xA0 + low, Row(10)[low])
  {}

  lemma LowAgreesB(low: nat)
    requires low < 8
    ensures Agrees(0xB0 + low, Row(11)[low])
  {}

  lemma HighAgreesB(low: nat)
    requires 8 <= low < 16
    ensures Agrees(0xB0 + low, Row(11)[low])
  {}

  lemma LowAgreesC(low: nat)
    requires low < 8
    ensures Agrees(0xC0 + low, Row(12)[low])
  {}

  lemma HighAgreesC(low: nat)
    requires 8 <= low < 16
    ensures Agrees(0xC0 + low, Row(12)[low])
  {}

  lemma LowAgreesD(low: nat)
    requires low < 8
    ensures Agrees(0xD0 + low, Row(13)[low])
  {}

  lemma HighAgreesD(low: nat)
    requires 8 <= low < 16
    ensures Agrees(0xD0 + low, Row(13)[low])
  {}

  lemma RowAgreesE(low: nat)
    requires low < 16
    ensures Agrees(0xE0 + low, Row(14)[low])
  {}

  lemma RowAgreesF(low: nat)
    requires low < 16
    ensures Agrees(0xF0 + low, Row(15)[low])
  {}

  /** The byte ranges the decoder tests are this table. */
  lemma RangesAreTable(b: byte)
    ensures Agrees(b, Row(b / 16)[b % 16])
  {
    hide Agrees, Row;
    var low: nat := b % 16;
    match b / 16
    case 0 => RowAgrees0(low);
    case 1 => RowAgrees1(low);
    case 2 => RowAgrees2(low);
    case 3 => if low < 8 { LowAgrees3(low); } else { HighAgrees3(low); }
    case 4 => RowAgrees4(low);
    case 5 => RowAgrees5(low);
    case 6 => if low < 8 { LowAgrees6(low); } else { HighAgrees6(low); }
    case 7 => if low < 8 { LowAgrees7(low); } else { HighAgrees7(low); }
    case 8 => RowAgrees8(low);
    case 9 => RowAgrees9(low);
    case 10 => if low < 8 { LowAgreesA(low); } else { HighAgreesA(low); }
    case 11 => if low < 8 { LowAgreesB(low); } else { HighAgreesB(low); }
    case 12 => if low < 8 { LowAgreesC(low); } else { HighAgreesC(low); }
    case 13 => if low < 8 { LowAgreesD(low); } else { HighAgreesD(low); }
    case 14 => RowAgreesE(low);
    case _ => RowAgreesF(low);
  }
}
