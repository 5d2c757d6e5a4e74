/** The part of the RISC-V Unprivileged ISA (20191213) that the biscuit assembler model needs:
    the instruction formats of sections 2.3 and 2.4, the 64-bit instructions of section 5.2 and
    the CB format of section 16.4. Words are bounded integers: a mask-and-shift of a bit field
    is a division and a remainder, and an OR of fields that share no bit is a sum. */
module RiscV {
  import opened Words

  type Reg = r: int | 0 <= r < 32

  datatype Xlen = RV32 | RV64

  /** The value kept by a register of the given width. */
  function Wrap(x: Xlen, v: int): (w: int)
    ensures RegisterValue(x, w)
  {
    if x == RV32 then v % TWO32 else v % TWO64
  }

  predicate RegisterValue(x: Xlen, v: int) {
    0 <= v < if x == RV32 then TWO32 else TWO64
  }

  // ---------------------------------------------------------------- decoding, from the ISA manual

  datatype Instr =
    | Lui(rd: Reg, hi: int)
    | Auipc(rd: Reg, hi: int)
    | Addi(rd: Reg, rs1: Reg, imm: int)
    | Addiw(rd: Reg, rs1: Reg, imm: int)
    | Slli(rd: Reg, rs1: Reg, shamt: nat)
    | Jalr(rd: Reg, rs1: Reg, imm: int)
    | Jal(rd: Reg, imm: int)
    | Branch(funct3: int, rs1: Reg, rs2: Reg, imm: int)
    | Illegal

  /** Section 2.3: the immediate of a B-type word, imm[12|10:5] in bits 31:25, imm[4:1|11] in 11:7. */
  function BImmediate(w: u32): int {
    w / 0x80 % 2 * 0x800 + w / 0x100 % 16 * 2 + w / 0x200_0000 % 64 * 32 - w / 0x8000_0000 * 0x1000
  }

  /** Section 2.3: the immediate of a J-type word, imm[20|10:1|11|19:12] in bits 31:12. */
  function JImmediate(w: u32): int {
    w / 0x1000 % 256 * 0x1000 + w / 0x10_0000 % 2 * 0x800 + w / 0x20_0000 % 1024 * 2 - w / 0x8000_0000 * 0x10_0000
  }

  /** Section 16.4: the offset of a CB-type halfword, offset[8|4:3] in bits 12:10, [7:6|2:1|5] in 6:2. */
  function CBImmediate(w: int): int {
    w / 4 % 2 * 32 + w / 8 % 4 * 2 + w / 32 % 4 * 64 + w / 0x400 % 4 * 8 - w / 0x1000 % 2 * 0x100
  }

  /** Section 16.4: the offset of a CJ-type halfword, offset[11|4|9:8|10|6|7|3:1|5] in bits 12:2. */
  function CJImmediate(w: int): int {
    w / 4 % 2 * 32 + w / 8 % 8 * 2 + w / 64 % 2 * 128 + w / 128 % 2 * 64 + w / 0x100 % 2 * 0x400
    + w / 0x200 % 4 * 0x100 + w / 0x800 % 2 * 16 - w / 0x1000 % 2 * 0x800
  }

  /** The I-type instructions in use: opcodes OP-IMM, OP-IMM-32 and JALR. */
  function DecodeI(x: Xlen, opcode: int, imm12: nat, rs1: Reg, funct3: int, rd: Reg): Instr {
    if opcode == 0x13 && funct3 == 0 then Addi(rd, rs1, SignExtend12(imm12))
    else if opcode == 0x13 && funct3 == 1 && imm12 < (if x == RV32 then 32 else 64) then Slli(rd, rs1, imm12)
    else if opcode == 0x1B && x == RV64 && funct3 == 0 then Addiw(rd, rs1, SignExtend12(imm12))
    else if opcode == 0x67 && funct3 == 0 then Jalr(rd, rs1, SignExtend12(imm12))
    else Illegal
  }

  function Decode(x: Xlen, w: u32): Instr {
    var rd := w / 0x80 % 32;
    var funct3 := w / 0x1000 % 8;
    var rs1 := w / 0x8000 % 32;
    var imm12 := w / 0x10_0000;
    match w % 0x80
    case 0x37 => Lui(rd, w / 0x1000)
    case 0x17 => Auipc(rd, w / 0x1000)
    case 0x13 => DecodeI(x, 0x13, imm12, rs1, funct3, rd)
    case 0x1B => DecodeI(x, 0x1B, imm12, rs1, funct3, rd)
    case 0x67 => DecodeI(x, 0x67, imm12, rs1, funct3, rd)
    case 0x6F => Jal(rd, JImmediate(w))
    case 0x63 => if funct3 == 2 || funct3 == 3 then Illegal else Branch(funct3, rs1, imm12 % 32, BImmediate(w))
    case _ => Illegal
  }

  /** Section 16.4: the branches and jumps among the compressed instructions of quadrant 1. C.JAL exists
      on RV32 only. */
  function DecodeCompressed(x: Xlen, w: u32): Instr {
    if w >= 0x1_0000 || w % 4 != 1 then Illegal
    else
      var rs1 := 8 + w / 0x80 % 8;
      match w / 0x2000
      case 1 => if x == RV32 then Jal(1, CJImmediate(w)) else Illegal
      case 5 => Jal(0, CJImmediate(w))
      case 6 => Branch(0, rs1, 0, CBImmediate(w))
      case 7 => Branch(1, rs1, 0, CBImmediate(w))
      case _ => Illegal
  }

  // ---------------------------------------------------------------- execution of straight-line code

  /** A hart: the program counter and the integer registers, or a trap on an illegal word. */
  datatype Hart = Running(pc: int, regs: seq<int>) | Trap

  predicate WellFormed(x: Xlen, h: Hart) {
    h.Running? ==>
      && |h.regs| == 32
      && h.regs[0] == 0
      && RegisterValue(x, h.pc)
      && forall i :: 0 <= i < 32 ==> RegisterValue(x, h.regs[i])
  }

  /** Writes a register; x0 stays zero. */
  function Write(x: Xlen, regs: seq<int>, rd: Reg, v: int): (r: seq<int>)
    requires |regs| == 32
    ensures |r| == 32
    ensures rd != 0 ==> r[rd] == Wrap(x, v)
    ensures forall i :: 0 <= i < 32 && i != rd ==> r[i] == regs[i]
    ensures rd == 0 ==> r == regs
  {
    if rd == 0 then regs else regs[rd := Wrap(x, v)]
  }

  /** Section 2.5: whether a conditional branch is taken (BEQ, BNE, BLT, BGE, BLTU, BGEU). */
  predicate Taken(x: Xlen, funct3: int, a: int, b: int) {
    var half := if x == RV32 then TWO32 / 2 else TWO63;
    match funct3
    case 0 => a == b
    case 1 => a != b
    case 4 => Wrap(x, a + half) < Wrap(x, b + half)
    case 5 => Wrap(x, a + half) >= Wrap(x, b + half)
    case 6 => a < b
    case _ => a >= b
  }

  /** Executes one instruction. A 12-bit immediate is taken from its low 12 bits, sign-extended. */
  function Exec(x: Xlen, i: Instr, h: Hart): (h': Hart)
    requires WellFormed(x, h)
    ensures WellFormed(x, h')
  {
    if h.Trap? then Trap else
    var next := Wrap(x, h.pc + 4);
    match i
    case Lui(rd, hi) => Running(next, Write(x, h.regs, rd, SignExtend32(hi * 0x1000)))
    case Auipc(rd, hi) => Running(next, Write(x, h.regs, rd, h.pc + SignExtend32(hi * 0x1000)))
    case Addi(rd, rs1, imm) => Running(next, Write(x, h.regs, rd, h.regs[rs1] + SignExtend12(imm)))
    case Addiw(rd, rs1, imm) => Running(next, Write(x, h.regs, rd, SignExtend32(h.regs[rs1] + SignExtend12(imm))))
    case Slli(rd, rs1, shamt) => Running(next, Write(x, h.regs, rd, h.regs[rs1] * Pow2(shamt)))
    case Jalr(rd, rs1, imm) =>
      var target := Wrap(x, h.regs[rs1] + SignExtend12(imm));
      Running(target - target % 2, Write(x, h.regs, rd, h.pc + 4))
    case Jal(rd, imm) => Running(Wrap(x, h.pc + imm), Write(x, h.regs, rd, h.pc + 4))
    case Branch(funct3, rs1, rs2, imm) =>
      Running(if Taken(x, funct3, h.regs[rs1], h.regs[rs2]) then Wrap(x, h.pc + imm) else next, h.regs)
    case Illegal => Trap
  }

  /** Executes straight-line code. */
  function ExecAll(x: Xlen, code: seq<Instr>, h: Hart): (h': Hart)
    requires WellFormed(x, h)
    ensures WellFormed(x, h')
  {
    if code == [] then h else ExecAll(x, code[1..], Exec(x, code[0], h))
  }

  lemma {:induction false} ExecConcat(x: Xlen, a: seq<Instr>, b: seq<Instr>, h: Hart)
    requires WellFormed(x, h)
    ensures ExecAll(x, a + b, h) == ExecAll(x, b, ExecAll(x, a, h))
  {
    if a == [] {
      assert a + b == b;
    } else {
      assert (a + b)[1..] == a[1..] + b;
      ExecConcat(x, a[1..], b, Exec(x, a[0], h));
    }
  }

  function DecodeAll(x: Xlen, ws: seq<u32>): (code: seq<Instr>)
    ensures |code| == |ws|
    ensures forall i :: 0 <= i < |ws| ==> code[i] == Decode(x, ws[i])
  {
    seq(|ws|, i requires 0 <= i < |ws| => Decode(x, ws[i]))
  }

  /** Fetches, decodes and executes words laid out one after the other. */
  function Run(x: Xlen, ws: seq<u32>, h: Hart): (h': Hart)
    requires WellFormed(x, h)
  {
    ExecAll(x, DecodeAll(x, ws), h)
  }
}
