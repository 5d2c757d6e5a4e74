/** LI and CALL of the biscuit assembler, as the words they emit. */
module LoadImmediate {
  import opened Words
  import opened RiscV

  // ---------------------------------------------------------------- encoders of assembler_util.hpp

  function EncodeI(imm: int, rs1: Reg, funct3: int, rd: Reg, opcode: int): u32
    requires 0 <= funct3 < 8 && 0 <= opcode < 0x80
  {
    imm % 0x1000 * 0x10_0000 + rs1 * 0x8000 + funct3 * 0x1000 + rd * 0x80 + opcode
  }

  /** The decoder's fields of an I-type word are the encoder's arguments. */
  lemma IFields(imm: int, rs1: Reg, funct3: int, rd: Reg, opcode: int)
    requires 0 <= funct3 < 8 && 0 <= opcode < 0x80
    ensures var w := EncodeI(imm, rs1, funct3, rd, opcode);
      && w / 0x10_0000 == imm % 0x1000 && w / 0x8000 % 32 == rs1 && w / 0x1000 % 8 == funct3
      && w / 0x80 % 32 == rd && w % 0x80 == opcode
  {
    var w := EncodeI(imm, rs1, funct3, rd, opcode);
    var a := imm % 0x1000 * 32 + rs1;
    var b := a * 8 + funct3;
    var c := b * 32 + rd;
    assert w == c * 0x80 + opcode == b * 0x1000 + (rd * 0x80 + opcode);
    assert w == a * 0x8000 + (funct3 * 0x1000 + rd * 0x80 + opcode);
    hide EncodeI;
    Peel(c, 0x80, opcode);
    Peel(b, 0x1000, rd * 0x80 + opcode);
    Peel(a, 0x8000, funct3 * 0x1000 + rd * 0x80 + opcode);
    Peel(imm % 0x1000, 0x10_0000, rs1 * 0x8000 + funct3 * 0x1000 + rd * 0x80 + opcode);
    Peel(b, 32, rd);
    Peel(a, 8, funct3);
    Peel(imm % 0x1000, 32, rs1);
  }

  function EncodeU(imm: int, rd: Reg, opcode: int): u32
    requires 0 <= opcode < 0x80
  {
    imm % 0x10_0000 * 0x1000 + rd * 0x80 + opcode
  }

  lemma UFields(imm: int, rd: Reg, opcode: int)
    requires 0 <= opcode < 0x80
    ensures var w := EncodeU(imm, rd, opcode);
      w / 0x1000 == imm % 0x10_0000 && w / 0x80 % 32 == rd && w % 0x80 == opcode
  {
    Peel(imm % 0x10_0000 * 32 + rd, 0x80, opcode);
    Peel(imm % 0x10_0000, 0x1000, rd * 0x80 + opcode);
    Peel(imm % 0x10_0000, 32, rd);
  }

  /** The emitters LUI, AUIPC, ADDI, ADDIW, SLLI and JALR. */
  predicate Emittable(i: Instr) {
    i.Lui? || i.Auipc? || i.Addi? || i.Addiw? || i.Jalr? || (i.Slli? && i.shamt < 64)
  }

  function Encode(i: Instr): u32
    requires Emittable(i)
  {
    match i
    case Lui(rd, hi) => EncodeU(hi, rd, 0x37)
    case Auipc(rd, hi) => EncodeU(hi, rd, 0x17)
    case Addi(rd, rs1, imm) => EncodeI(imm, rs1, 0, rd, 0x13)
    case Addiw(rd, rs1, imm) => EncodeI(imm, rs1, 0, rd, 0x1B)
    case Slli(rd, rs1, shamt) => EncodeI(shamt, rs1, 1, rd, 0x13)
    case Jalr(rd, rs1, imm) => EncodeI(imm, rs1, 0, rd, 0x67)
  }

  lemma DecodeEncodeI(x: Xlen, imm: int, rs1: Reg, funct3: int, rd: Reg, opcode: int)
    requires opcode == 0x13 || opcode == 0x1B || opcode == 0x67
    requires 0 <= funct3 < 8
    ensures Decode(x, EncodeI(imm, rs1, funct3, rd, opcode)) == DecodeI(x, opcode, imm % 0x1000, rs1, funct3, rd)
  {
    IFields(imm, rs1, funct3, rd, opcode);
  }

  lemma DecodeEncodeU(x: Xlen, rd: Reg, imm: int)
    ensures Decode(x, EncodeU(imm, rd, 0x37)) == Lui(rd, imm % 0x10_0000)
    ensures Decode(x, EncodeU(imm, rd, 0x17)) == Auipc(rd, imm % 0x10_0000)
  {
    UFields(imm, rd, 0x37);
    UFields(imm, rd, 0x17);
  }

  /** Sign extension depends on the low twelve bits only. */
  lemma SignExtend12Shift(imm: int, d: int)
    ensures SignExtend12(imm + d * 0x1000) == SignExtend12(imm)
  {
  }

  lemma SignExtend12Low(imm: int)
    ensures SignExtend12(imm % 0x1000) == SignExtend12(imm)
    ensures SignExtend12(SignExtend12(imm)) == SignExtend12(imm)
  {
    SignExtend12Shift(imm % 0x1000, imm / 0x1000);
    SignExtend12Shift(imm, (SignExtend12(imm) - imm) / 0x1000);
    hide SignExtend12;
  }

  lemma UpperLow(hi: int)
    ensures SignExtend32(hi % 0x10_0000 * 0x1000) == SignExtend32(hi * 0x1000)
  {
    var d := hi / 0x10_0000;
    assert hi * 0x1000 == hi % 0x10_0000 * 0x1000 + d * TWO32;
  }

  /** The instruction with its immediate as the hardware reads it back. */
  function Canonical(i: Instr): Instr {
    match i
    case Lui(rd, hi) => Lui(rd, hi % 0x10_0000)
    case Auipc(rd, hi) => Auipc(rd, hi % 0x10_0000)
    case Addi(rd, rs1, imm) => Addi(rd, rs1, SignExtend12(imm))
    case Addiw(rd, rs1, imm) => Addiw(rd, rs1, SignExtend12(imm))
    case Jalr(rd, rs1, imm) => Jalr(rd, rs1, SignExtend12(imm))
    case _ => i
  }

  /** Decoding an emitted word gives back the instruction. */
  lemma DecodeEncode(x: Xlen, i: Instr)
    requires Emittable(i)
    requires x == RV32 ==> !i.Addiw? && !i.Slli?
    ensures Decode(x, Encode(i)) == Canonical(i)
  {
    hide Decode, EncodeI, EncodeU, SignExtend12, SignExtend32;
    match i
    case Lui(rd, hi) => DecodeEncodeU(x, rd, hi);
    case Auipc(rd, hi) => DecodeEncodeU(x, rd, hi);
    case Addi(rd, rs1, imm) => DecodeEncodeI(x, imm, rs1, 0, rd, 0x13); SignExtend12Low(imm);
    case Addiw(rd, rs1, imm) => DecodeEncodeI(x, imm, rs1, 0, rd, 0x1B); SignExtend12Low(imm);
    case Slli(rd, rs1, shamt) => DecodeEncodeI(x, shamt, rs1, 1, rd, 0x13);
    case Jalr(rd, rs1, imm) => DecodeEncodeI(x, imm, rs1, 0, rd, 0x67); SignExtend12Low(imm);
  }

  lemma CanonicalExec(x: Xlen, i: Instr, h: Hart)
    requires WellFormed(x, h)
    ensures Exec(x, Canonical(i), h) == Exec(x, i, h)
  {
    hide SignExtend12, SignExtend32;
    match i
    case Lui(rd, hi) => UpperLow(hi);
    case Auipc(rd, hi) => UpperLow(hi);
    case Addi(rd, rs1, imm) => SignExtend12Low(imm);
    case Addiw(rd, rs1, imm) => SignExtend12Low(imm);
    case Jalr(rd, rs1, imm) => SignExtend12Low(imm);
    case _ =>
  }

  // ---------------------------------------------------------------- LI

  /** std::countr_zero on a nonzero word. */
  function TrailingZeros(x: u64): (c: nat)
    requires x != 0
    ensures x % Pow2(c) == 0 && x / Pow2(c) % 2 == 1
    decreases x
  {
    if x % 2 == 1 then 0
    else
      var c := TrailingZeros(x / 2);
      HalveDivisible(x / 2, Pow2(c));
      c + 1
  }

  /** Twice a multiple of p is a multiple of 2p, with the same quotient. */
  lemma HalveDivisible(h: int, p: int)
    requires p > 0 && h % p == 0
    ensures 2 * h % (2 * p) == 0 && 2 * h / (2 * p) == h / p
  {
    var q := h / p;
    assert 2 * h == q * (2 * p);
    ExactQuotient(q, 2 * p);
  }

  lemma ExactQuotient(q: int, p: int)
    requires p > 0
    ensures q * p / p == q && q * p % p == 0
  {
    var d, r := q * p / p, q * p % p;
    assert (q - d) * p == r;
    assert q - d >= 1 ==> (q - d) * p >= p;
    assert q - d <= -1 ==> (q - d) * p <= -p;
  }

  /** A word whose value survives a truncation to 32 bits and a sign extension. */
  predicate Fits32(imm: u64) {
    SignExtend32(imm) % TWO64 == imm
  }

  /** LUI and ADDI (RV32) or ADDIW (RV64) for a sign-extended 32-bit constant. */
  function SmallCode(x: Xlen, rd: Reg, imm: u64): (code: seq<Instr>)
    ensures 1 <= |code| <= 2
  {
    SplitCode(x, rd, HiPart(imm), LoPart(imm))
  }

  /** The operand of LUI; adding 0x800 cancels the sign extension of the low part. */
  function HiPart(imm: u64): int {
    (imm % TWO32 + 0x800) % TWO32 / 0x1000
  }

  function LoPart(imm: u64): int {
    imm % TWO32 % 0x1000
  }

  function SplitCode(x: Xlen, rd: Reg, hi20: int, lo12: int): (code: seq<Instr>)
    ensures 1 <= |code| <= 2
  {
    var rs1 := if hi20 != 0 then rd else 0;
    (if hi20 != 0 then [Lui(rd, hi20)] else [])
    + if lo12 != 0 || hi20 == 0 then [AddLow(x, rd, rs1, lo12)] else []
  }

  function AddLow(x: Xlen, rd: Reg, rs1: Reg, lo12: int): Instr {
    if x == RV32 then Addi(rd, rs1, lo12) else Addiw(rd, rs1, lo12)
  }

  /** One recursion step of the 64-bit case: the shift amount and the constant of the recursive call. */
  function ShiftAmount(imm: u64): (shift: nat)
    requires !Fits32(imm)
  {
    12 + TrailingZeros((imm + 0x800) % TWO64 / 0x1000)
  }

  function UpperPart(imm: u64): (hi: u64)
    requires !Fits32(imm)
  {
    var hi52 := (imm + 0x800) % TWO64 / 0x1000;
    var shift := ShiftAmount(imm);
    Requantize(hi52, Pow2(shift - 12), Pow2(shift))
  }

  /** A logical right shift, a left shift and an arithmetic right shift, as LI chains them. */
  function Requantize(hi: u64, down: int, up: int): u64
    requires down > 0 && up > 0
  {
    Signed64(hi / down * up % TWO64) / up % TWO64
  }

  lemma {:induction false} Pow2Monotone(m: nat, n: nat)
    requires m <= n
    ensures Pow2(m) <= Pow2(n)
  {
    Pow2Adds(m, n - m);
    assert Pow2(m) * Pow2(n - m) >= Pow2(m) * 1;
  }

  lemma Pow2Four()
    ensures Pow2(4) == 16
  {
  }

  lemma Pow2Values()
    ensures Pow2(12) == 0x1000 && Pow2(52) == 0x10_0000_0000_0000 && Pow2(64) == TWO64
  {
    hide Pow2;
    Pow2Four();
    Pow2Adds(4, 4);
    Pow2Adds(8, 4);
    Pow2Adds(12, 12);
    Pow2Adds(24, 24);
    Pow2Adds(48, 4);
    Pow2Adds(52, 12);
  }

  lemma UpperNonzero(imm: u64)
    requires !Fits32(imm)
    ensures 0 < (imm + 0x800) % TWO64 / 0x1000 < 0x10_0000_0000_0000
  {
    LargeUnlessFits(imm);
  }

  lemma TrailingZerosBound(h: u64)
    requires 0 < h < 0x10_0000_0000_0000
    ensures TrailingZeros(h) <= 51
  {
    var c := TrailingZeros(h);
    hide TrailingZeros;
    SmallMultiple(h, Pow2(c));
    if c >= 52 {
      Pow2Monotone(52, c);
      Pow2Values();
    }
  }

  /** The upper part is nonzero and below 2^52, so the shift is at most 63. */
  lemma ShiftInRange(imm: u64)
    requires !Fits32(imm)
    ensures 12 <= ShiftAmount(imm) <= 63
    ensures Pow2(ShiftAmount(imm)) == 0x1000 * Pow2(ShiftAmount(imm) - 12)
    ensures Pow2(ShiftAmount(imm)) * Pow2(64 - ShiftAmount(imm)) == TWO64
  {
    UpperNonzero(imm);
    TrailingZerosBound((imm + 0x800) % TWO64 / 0x1000);
    var shift := ShiftAmount(imm);
    assert 12 <= shift <= 63;
    hide ShiftAmount, TrailingZeros, Fits32;
    Pow2Values();
    Pow2Adds(12, shift - 12);
    Pow2Adds(shift, 64 - shift);
  }

  /** A positive multiple of p is at least p. */
  lemma SmallMultiple(x: int, p: int)
    requires p > 0 && x > 0 && x % p == 0
    ensures x >= p
  {
  }

  /** Congruence: reducing a factor modulo 2^64 does not change a product modulo 2^64. */
  lemma ReduceFactor(r: int, p: int)
    ensures r % TWO64 * p % TWO64 == r * p % TWO64
  {
    var d := r / TWO64;
    assert r * p == r % TWO64 * p + d * p * TWO64;
    AddMultiple(r % TWO64 * p, d * p);
  }

  /** An arithmetic right shift of a multiple of 2^shift is exact, and the left shift undoes it. */
  lemma ShiftBack(q: int, p: int, k: int)
    requires p > 0 && p * k == TWO64 && 0 <= q * p < TWO64
    ensures var r := Signed64(q * p) / p;
      r * p == Signed64(q * p) && r % TWO64 * p % TWO64 == q * p
  {
    var y := q * p;
    var q' := if y < TWO63 then q else q - k;
    assert Signed64(y) == q' * p;
    ExactQuotient(q', p);
    ReduceFactor(q', p);
  }

  /** Clearing the low 12 bits after adding 0x800 removes exactly the sign-extended low part. */
  lemma LowPartRemoved(imm: u64)
    ensures (imm + 0x800) % TWO64 / 0x1000 * 0x1000 == (imm - SignExtend12(imm)) % TWO64
  {
    var sum := (imm + 0x800) % TWO64;
    assert sum % 0x1000 == (imm + 0x800) % 0x1000;
  }

  lemma Regroup(q: int, down: int)
    ensures q * (0x1000 * down) == q * down * 0x1000
  {
  }

  lemma RequantizeExact(hi: u64, down: int, k: int) returns (r: int)
    requires down > 0 && hi % down == 0 && hi * 0x1000 < TWO64 && 0x1000 * down * k == TWO64
    ensures Requantize(hi, down, 0x1000 * down) == r % TWO64
    ensures r * (0x1000 * down) == Signed64(hi * 0x1000)
    ensures Requantize(hi, down, 0x1000 * down) * (0x1000 * down) % TWO64 == hi * 0x1000
  {
    var q, p, y := hi / down, 0x1000 * down, hi * 0x1000;
    assert q * down == hi;
    Regroup(q, down);
    ShiftBack(q, p, k);
    r := Signed64(y) / p;
    assert y % TWO64 == y;
  }

  /** The recursive constant is the exact quotient of the rest by 2^shift, so SLLI restores it. */
  lemma UpperPartExact(imm: u64) returns (r: int)
    requires !Fits32(imm)
    ensures UpperPart(imm) == r % TWO64
    ensures r * Pow2(ShiftAmount(imm)) == Signed64((imm - SignExtend12(imm)) % TWO64)
    ensures UpperPart(imm) * Pow2(ShiftAmount(imm)) % TWO64 == (imm - SignExtend12(imm)) % TWO64
  {
    ShiftInRange(imm);
    LowPartRemoved(imm);
    var s := ShiftAmount(imm);
    r := RequantizeExact((imm + 0x800) % TWO64 / 0x1000, Pow2(s - 12), Pow2(64 - s));
  }

  function Magnitude(imm: u64): nat {
    var s := Signed64(imm);
    if s < 0 then -s else s
  }

  lemma QuotientBound(r: int, p: int, y: int)
    requires p >= 0x1000 && r * p == y
    ensures -y <= 0x1000 * r <= y || y <= 0x1000 * r <= -y
  {
    if r >= 0 {
      assert r * p >= r * 0x1000;
    } else {
      assert -r * p >= -r * 0x1000;
      assert -r * p == -y;
    }
  }

  /** Bounds on the constant without its low part, a multiple of 4096. */
  lemma RestBounds(imm: u64)
    ensures var y := Signed64((imm - SignExtend12(imm)) % TWO64);
      && -TWO63 <= y <= TWO63 - 0x1000
      && (Magnitude(imm) <= 0x8_0000_0000_0000 ==> -0x8_0000_0000_0000 <= y <= 0x8_0000_0000_0000)
      && (Magnitude(imm) <= 0x80_0000_0000 ==> -0x80_0000_0000 <= y <= 0x80_0000_0000)
  {
    var lo := SignExtend12(imm);
    var y := Signed64((imm - lo) % TWO64);
    assert y % 0x1000 == 0;
    if Magnitude(imm) <= 0x8_0000_0000_0000 {
      assert y == Signed64(imm) - lo;
    }
  }

  lemma LargeUnlessFits(imm: u64)
    ensures Fits32(imm) <==> -0x8000_0000 <= Signed64(imm) < 0x8000_0000
  {
  }

  /** The measure of the recursion: each level divides the magnitude by at least 2^12. */
  lemma UpperPartShrinks(imm: u64)
    requires !Fits32(imm)
    ensures Magnitude(UpperPart(imm)) < Magnitude(imm)
    ensures Magnitude(UpperPart(imm)) <= 0x8_0000_0000_0000
    ensures Magnitude(imm) <= 0x8_0000_0000_0000 ==> Magnitude(UpperPart(imm)) <= 0x80_0000_0000
    ensures Magnitude(imm) <= 0x80_0000_0000 ==> Magnitude(UpperPart(imm)) <= 0x800_0000
  {
    ShiftInRange(imm);
    RestBounds(imm);
    LargeUnlessFits(imm);
    var y := Signed64((imm - SignExtend12(imm)) % TWO64);
    var p := Pow2(ShiftAmount(imm));
    var r := UpperPartExact(imm);
    QuotientBound(r, p, y);
    SignedOfReduced(r);
  }

  lemma SignedOfReduced(r: int)
    requires -TWO63 <= r < TWO63
    ensures Signed64(r % TWO64) == r
  {
  }

  /** LI: the instructions emitted for a constant. */
  function LiCode(x: Xlen, rd: Reg, imm: u64): (code: seq<Instr>)
    decreases Magnitude(imm)
  {
    if x == RV32 || Fits32(imm) then SmallCode(x, rd, imm)
    else
      UpperPartShrinks(imm);
      ShiftAdd(LiCode(x, rd, UpperPart(imm)), rd, ShiftAmount(imm), SignExtend12(imm))
  }

  function ShiftAdd(code: seq<Instr>, rd: Reg, shift: nat, lo12: int): seq<Instr> {
    code + ([Slli(rd, rd, shift)] + if lo12 != 0 then [Addi(rd, rd, lo12)] else [])
  }

  /** At most eight instructions are emitted, whatever the constant: three levels of recursion. */
  lemma {:induction false} LiLength(x: Xlen, rd: Reg, imm: u64)
    ensures 1 <= |LiCode(x, rd, imm)| <= 8
    ensures Magnitude(imm) <= 0x8_0000_0000_0000 ==> |LiCode(x, rd, imm)| <= 6
    ensures Magnitude(imm) <= 0x80_0000_0000 ==> |LiCode(x, rd, imm)| <= 4
    ensures Magnitude(imm) <= 0x800_0000 ==> |LiCode(x, rd, imm)| <= 2
    decreases Magnitude(imm)
  {
    if !(x == RV32 || Fits32(imm)) {
      UpperPartShrinks(imm);
      LargeUnlessFits(imm);
      LiLength(x, rd, UpperPart(imm));
    }
  }

  // ---------------------------------------------------------------- LI loads the constant

  lemma WriteTwice(x: Xlen, regs: seq<int>, rd: Reg, a: int, b: int)
    requires |regs| == 32
    ensures Write(x, Write(x, regs, rd, a), rd, b) == Write(x, regs, rd, b)
  {
  }

  lemma SignExtend32Congruent(a: int, b: int)
    requires (a - b) % TWO32 == 0
    ensures SignExtend32(a) == SignExtend32(b)
  {
  }

  /** The register after LUI: the constant without its sign-extended low part, modulo 2^32. */
  function LuiValue(x: Xlen, imm: u64): int {
    Wrap(x, SignExtend32(HiPart(imm) * 0x1000))
  }

  lemma SumOfMultiples(a: int, b: int)
    requires a % TWO32 == 0 && b % TWO32 == 0
    ensures (a + b) % TWO32 == 0
  {
  }

  lemma ReducedCongruent64(t: int)
    ensures (t % TWO64 - t) % TWO32 == 0
  {
    var k := t / TWO64;
    assert t % TWO64 - t == -k * TWO32 * TWO32;
  }

  lemma ReducedCongruent(x: Xlen, t: int)
    ensures (Wrap(x, t) - t) % TWO32 == 0
  {
    if x == RV32 {
      ReduceSum32(t, -t);
    } else {
      ReducedCongruent64(t);
    }
  }

  lemma PartsCongruent(imm: u64)
    ensures (HiPart(imm) * 0x1000 + SignExtend12(LoPart(imm)) - imm % TWO32) % TWO32 == 0
  {
  }

  lemma LuiValueCongruent(x: Xlen, imm: u64)
    ensures (LuiValue(x, imm) + SignExtend12(LoPart(imm)) - imm) % TWO32 == 0
  {
    var a, lo := HiPart(imm) * 0x1000, SignExtend12(LoPart(imm));
    var t := SignExtend32(a);
    PartsCongruent(imm);
    ReducedCongruent(x, t);
    assert (imm % TWO32 - imm) % TWO32 == 0;
    assert LuiValue(x, imm) == Wrap(x, t);
    assert (t - a) % TWO32 == 0;
    hide *;
    SumOfMultiples(LuiValue(x, imm) - t, t - a);
    SumOfMultiples(LuiValue(x, imm) - a, a + lo - imm % TWO32);
    SumOfMultiples(LuiValue(x, imm) + lo - imm % TWO32, imm % TWO32 - imm);
  }

  lemma SameRemainder(a: int, b: int)
    requires (a - b) % TWO32 == 0
    ensures a % TWO32 == b % TWO32
  {
  }

  lemma LuiValueCanonical(imm: u64)
    ensures SignExtend32(LuiValue(RV64, imm)) % TWO64 == LuiValue(RV64, imm)
    ensures LuiValue(RV32, imm) % TWO32 == LuiValue(RV32, imm)
  {
    var t := SignExtend32(HiPart(imm) * 0x1000);
    ReducedCongruent(RV64, t);
    SignExtend32Congruent(LuiValue(RV64, imm), t);
    assert SignExtend32(t) == t;
  }

  /** ADDI adds to the full register, ADDIW truncates the sum to 32 bits and sign-extends it. */
  function Added(x: Xlen, v: int): int {
    if x == RV32 then v else SignExtend32(v)
  }

  /** LUI followed by ADDI, or ADDIW, rebuilds a 32-bit constant. */
  lemma SmallExtends(imm: u64)
    ensures SignExtend12(0) == 0 && (Fits32(imm) ==> SignExtend32(imm) % TWO64 == imm)
  {
  }

  lemma SmallValue(x: Xlen, imm: u64)
    requires x == RV32 || Fits32(imm)
    ensures Wrap(x, Added(x, LuiValue(x, imm) + SignExtend12(LoPart(imm)))) == Wrap(x, imm)
    ensures LoPart(imm) == 0 ==> LuiValue(x, imm) == Wrap(x, imm)
  {
    hide SignExtend12, SignExtend32, LuiValue, HiPart, LoPart, Fits32;
    var v := LuiValue(x, imm) + SignExtend12(LoPart(imm));
    LuiValueCongruent(x, imm);
    LuiValueCanonical(imm);
    SmallExtends(imm);
    if x == RV32 {
      SameRemainder(v, imm);
    } else {
      SignExtend32Congruent(v, imm);
    }
  }

  lemma ExecTwo(x: Xlen, a: Instr, b: Instr, h: Hart)
    requires WellFormed(x, h)
    ensures ExecAll(x, [a], h) == Exec(x, a, h)
    ensures ExecAll(x, [a, b], h) == Exec(x, b, Exec(x, a, h))
  {
    assert [a, b][1..] == [b];
    assert ExecAll(x, [b], Exec(x, a, h)) == Exec(x, b, Exec(x, a, h));
  }

  lemma ExecAdd(x: Xlen, rd: Reg, rs1: Reg, lo: int, h: Hart)
    requires h.Running? && WellFormed(x, h)
    ensures var h' := Exec(x, AddLow(x, rd, rs1, lo), h);
      && h'.Running?
      && h'.regs == Write(x, h.regs, rd, Added(x, h.regs[rs1] + SignExtend12(lo)))
      && (rs1 == 0 ==> h'.regs == Write(x, h.regs, rd, Added(x, SignExtend12(lo))))
  {
  }

  lemma ExecLui(x: Xlen, rd: Reg, hi: int, h: Hart)
    requires h.Running? && WellFormed(x, h)
    ensures var h' := Exec(x, Lui(rd, hi), h);
      h'.Running? && h'.regs == Write(x, h.regs, rd, SignExtend32(hi * 0x1000))
  {
  }

  lemma WriteCongruent(x: Xlen, regs: seq<int>, rd: Reg, a: int, b: int)
    requires |regs| == 32 && Wrap(x, a) == Wrap(x, b)
    ensures Write(x, regs, rd, a) == Write(x, regs, rd, b)
  {
  }

  /** LUI then ADDI or ADDIW on the same register, for any split of the constant. */
  lemma PairLoads(x: Xlen, rd: Reg, hi: int, lo: int, imm: int, h: Hart)
    requires h.Running? && WellFormed(x, h)
    requires Wrap(x, Added(x, Wrap(x, SignExtend32(hi * 0x1000)) + SignExtend12(lo))) == Wrap(x, imm)
    ensures var h' := ExecAll(x, [Lui(rd, hi), AddLow(x, rd, rd, lo)], h);
      h'.Running? && h'.regs == Write(x, h.regs, rd, imm)
  {
    var lui, add := Lui(rd, hi), AddLow(x, rd, rd, lo);
    var h1 := Exec(x, lui, h);
    ExecTwo(x, lui, add, h);
    ExecLui(x, rd, hi, h);
    ExecAdd(x, rd, rd, lo, h1);
    WriteTwice(x, h.regs, rd, SignExtend32(hi * 0x1000), imm);
  }

  lemma SingleLoads(x: Xlen, rd: Reg, i: Instr, v: int, imm: int, h: Hart)
    requires h.Running? && WellFormed(x, h)
    requires Exec(x, i, h).Running? && Exec(x, i, h).regs == Write(x, h.regs, rd, v)
    requires Wrap(x, v) == Wrap(x, imm)
    ensures var h' := ExecAll(x, [i], h);
      h'.Running? && h'.regs == Write(x, h.regs, rd, imm)
  {
    ExecTwo(x, i, i, h);
  }

  lemma SplitCodeLoads(x: Xlen, rd: Reg, hi: int, lo: int, imm: int, h: Hart)
    requires h.Running? && WellFormed(x, h)
    requires Wrap(x, Added(x, Wrap(x, SignExtend32(hi * 0x1000)) + SignExtend12(lo))) == Wrap(x, imm)
    requires lo == 0 ==> Wrap(x, SignExtend32(hi * 0x1000)) == Wrap(x, imm)
    ensures var h' := ExecAll(x, SplitCode(x, rd, hi, lo), h);
      h'.Running? && h'.regs == Write(x, h.regs, rd, imm)
  {
    var lui, add := Lui(rd, hi), AddLow(x, rd, if hi == 0 then 0 else rd, lo);
    assert Wrap(x, SignExtend32(0)) == 0 && (hi == 0 ==> hi * 0x1000 == 0);
    assert SplitCode(x, rd, hi, lo) == if hi == 0 then [add] else if lo == 0 then [lui] else [lui, add];
    hide *;
    if hi == 0 {
      ExecAdd(x, rd, 0, lo, h);
      SingleLoads(x, rd, add, Added(x, SignExtend12(lo)), imm, h);
    } else if lo == 0 {
      ExecLui(x, rd, hi, h);
      SingleLoads(x, rd, lui, SignExtend32(hi * 0x1000), imm, h);
    } else {
      PairLoads(x, rd, hi, lo, imm, h);
    }
  }

  lemma SmallCorrect(x: Xlen, rd: Reg, imm: u64, h: Hart)
    requires x == RV32 || Fits32(imm)
    requires h.Running? && WellFormed(x, h)
    ensures var h' := ExecAll(x, SmallCode(x, rd, imm), h);
      h'.Running? && h'.regs == Write(x, h.regs, rd, imm)
  {
    SmallValue(x, imm);
    hide Exec, ExecAll, HiPart, LoPart, SignExtend12, SignExtend32, SplitCode, Write;
    SplitCodeLoads(x, rd, HiPart(imm), LoPart(imm), imm, h);
  }

  lemma ExecShift(rd: Reg, shift: nat, h: Hart)
    requires h.Running? && WellFormed(RV64, h)
    ensures var h' := Exec(RV64, Slli(rd, rd, shift), h);
      h'.Running? && h'.regs == Write(RV64, h.regs, rd, h.regs[rd] * Pow2(shift))
  {
  }

  lemma AddBack(imm: u64, lo: int)
    ensures ((imm - lo) % TWO64 + lo) % TWO64 == imm
  {
  }

  lemma ThenAdd(regs: seq<int>, rd: Reg, y: int, lo: int, imm: int, h: Hart)
    requires h.Running? && WellFormed(RV64, h) && |regs| == 32
    requires h.regs == Write(RV64, regs, rd, y)
    requires 0 <= y < TWO64 && (y + lo) % TWO64 == imm && SignExtend12(lo) == lo
    ensures var h' := Exec(RV64, Addi(rd, rd, lo), h);
      h'.Running? && h'.regs == Write(RV64, regs, rd, imm)
  {
    assert rd != 0 ==> h.regs[rd] == y;
    WriteTwice(RV64, regs, rd, y, imm);
  }

  /** SLLI then ADDI, for a shifted value that is the constant less its low part. */
  lemma ShiftAddLoads(rd: Reg, shift: nat, lo: int, imm: u64, h: Hart)
    requires h.Running? && WellFormed(RV64, h)
    requires h.regs[rd] * Pow2(shift) % TWO64 == (imm - lo) % TWO64 || rd == 0
    requires SignExtend12(lo) == lo
    ensures var h' := ExecAll(RV64, [Slli(rd, rd, shift)] + (if lo != 0 then [Addi(rd, rd, lo)] else []), h);
      h'.Running? && h'.regs == Write(RV64, h.regs, rd, imm)
  {
    var slli, addi := Slli(rd, rd, shift), Addi(rd, rd, lo);
    var y := (imm - lo) % TWO64;
    AddBack(imm, lo);
    hide Exec, ExecAll, SignExtend12, Pow2;
    ExecShift(rd, shift, h);
    if rd != 0 {
      WriteCongruent(RV64, h.regs, rd, h.regs[rd] * Pow2(shift), y);
    }
    var h1 := Exec(RV64, slli, h);
    assert h1.Running? && h1.regs == Write(RV64, h.regs, rd, y);
    ExecTwo(RV64, slli, addi, h);
    if lo == 0 {
      assert [slli] + [] == [slli];
    } else {
      assert [slli] + [addi] == [slli, addi];
      ThenAdd(h.regs, rd, y, lo, imm, h1);
    }
  }

  /** LI leaves rd equal to the constant, modulo the register width, and nothing else changed. */
  lemma {:induction false} LiLoads(x: Xlen, rd: Reg, imm: u64, h: Hart)
    requires h.Running? && WellFormed(x, h)
    ensures var h' := ExecAll(x, LiCode(x, rd, imm), h);
      h'.Running? && h'.regs == Write(x, h.regs, rd, imm)
    decreases Magnitude(imm)
  {
    if x == RV32 || Fits32(imm) {
      SmallCorrect(x, rd, imm, h);
    } else {
      UpperPartShrinks(imm);
      LiLoads(x, rd, UpperPart(imm), h);
      var _ := UpperPartExact(imm);
      SignExtend12Low(imm);
      ShiftAddCorrect(LiCode(x, rd, UpperPart(imm)), rd, UpperPart(imm), ShiftAmount(imm), SignExtend12(imm), imm, h);
    }
  }

  /** The induction step: code that loads the upper part, then the shift and the addition. */
  lemma ShiftAddCorrect(code: seq<Instr>, rd: Reg, hi: u64, shift: nat, lo: int, imm: u64, h: Hart)
    requires h.Running? && WellFormed(RV64, h)
    requires var h1 := ExecAll(RV64, code, h); h1.Running? && h1.regs == Write(RV64, h.regs, rd, hi)
    requires hi * Pow2(shift) % TWO64 == (imm - lo) % TWO64 && SignExtend12(lo) == lo
    ensures var h' := ExecAll(RV64, ShiftAdd(code, rd, shift, lo), h);
      h'.Running? && h'.regs == Write(RV64, h.regs, rd, imm)
  {
    hide Exec, ExecAll, Pow2, SignExtend12;
    var rest := [Slli(rd, rd, shift)] + (if lo != 0 then [Addi(rd, rd, lo)] else []);
    var h1 := ExecAll(RV64, code, h);
    ExecConcat(RV64, code, rest, h);
    assert rd != 0 ==> h1.regs[rd] == hi;
    ShiftAddLoads(rd, shift, lo, imm, h1);
    WriteTwice(RV64, h.regs, rd, hi, imm);
  }

  // ---------------------------------------------------------------- words in the code buffer

  predicate EmittableOn(x: Xlen, i: Instr) {
    Emittable(i) && (x == RV32 ==> !i.Addiw? && !i.Slli?)
  }

  function EncodeAll(code: seq<Instr>): (ws: seq<u32>)
    requires forall i <- code :: Emittable(i)
    ensures |ws| == |code|
    ensures forall k :: 0 <= k < |code| ==> ws[k] == Encode(code[k])
  {
    seq(|code|, k requires 0 <= k < |code| => Encode(code[k]))
  }

  lemma {:induction false} LiEmittable(x: Xlen, rd: Reg, imm: u64)
    ensures forall i <- LiCode(x, rd, imm) :: EmittableOn(x, i) && Emittable(i)
    decreases Magnitude(imm)
  {
    if !(x == RV32 || Fits32(imm)) {
      UpperPartShrinks(imm);
      ShiftInRange(imm);
      LiEmittable(x, rd, UpperPart(imm));
    }
  }

  /** Fetching, decoding and executing emitted words is executing the instructions that were asked for. */
  lemma {:induction false} EncodedRuns(x: Xlen, code: seq<Instr>, h: Hart)
    requires WellFormed(x, h)
    requires forall i <- code :: EmittableOn(x, i) && Emittable(i)
    ensures Run(x, EncodeAll(code), h) == ExecAll(x, code, h)
  {
    if code == [] {
    } else {
      var ws := EncodeAll(code);
      assert code[0] in code;
      assert Decode(x, ws[0]) == Canonical(code[0]) by { DecodeEncode(x, code[0]); }
      CanonicalExec(x, code[0], h);
      assert DecodeAll(x, ws)[1..] == DecodeAll(x, EncodeAll(code[1..]));
      EncodedRuns(x, code[1..], Exec(x, code[0], h));
    }
  }

  function LiWords(x: Xlen, rd: Reg, imm: u64): (ws: seq<u32>)
    ensures 1 <= |ws| <= 8
  {
    LiEmittable(x, rd, imm);
    LiLength(x, rd, imm);
    EncodeAll(LiCode(x, rd, imm))
  }

  /** A register holds the constant, its low 32 bits on RV32, unless it is x0 and the constant is not 0;
      all other registers are unchanged. */
  predicate LoadsConstant(x: Xlen, rd: Reg, imm: u64, h: Hart, h': Hart) {
    && h.Running? && h'.Running? && |h.regs| == 32 == |h'.regs|
    && (forall r: Reg :: r != rd ==> h'.regs[r] == h.regs[r])
    && (h'.regs[rd] == Wrap(x, imm) <==> rd != 0 || Wrap(x, imm) == 0)
  }

  /** LI is correct: running the emitted words leaves every other register alone, never traps, and
      leaves rd equal to the constant (its low 32 bits on RV32) exactly when rd is not x0 or the
      constant is zero. */
  lemma LiCorrect(x: Xlen, rd: Reg, imm: u64, h: Hart)
    requires h.Running? && WellFormed(x, h)
    ensures LoadsConstant(x, rd, imm, h, Run(x, LiWords(x, rd, imm), h))
  {
    LiEmittable(x, rd, imm);
    EncodedRuns(x, LiCode(x, rd, imm), h);
    LiLoads(x, rd, imm, h);
  }

  // ---------------------------------------------------------------- CALL

  type i32 = n: int | -0x8000_0000 <= n < 0x8000_0000

  function CallUpper(offset: i32): int {
    var uimm := offset % TWO32;
    if uimm % 0x1000 >= 0x800 then uimm / 0x1000 + 1 else uimm / 0x1000
  }

  function CallLower(offset: i32): int {
    var uimm := offset % TWO32;
    if uimm % 0x1000 >= 0x800 then uimm % 0x1000 - 0x1000 else uimm % 0x1000
  }

  /** CALL: AUIPC with the upper part, incremented when the lower part is negative, then JALR. */
  function CallCode(offset: i32): seq<Instr> {
    [Auipc(1, CallUpper(offset)), Jalr(1, 1, CallLower(offset))]
  }

  lemma CallSplit(offset: i32)
    ensures SignExtend12(CallLower(offset)) == CallLower(offset)
    ensures SignExtend32(CallUpper(offset) * 0x1000) + CallLower(offset)
      == if offset < 0x7FFF_F800 then offset else offset - TWO32
  {
  }

  lemma CallExec(x: Xlen, hi: int, lo: int, h: Hart)
    requires h.Running? && WellFormed(x, h) && SignExtend12(lo) == lo
    ensures var h' := ExecAll(x, [Auipc(1, hi), Jalr(1, 1, lo)], h);
      var target := Wrap(x, Wrap(x, h.pc + SignExtend32(hi * 0x1000)) + lo);
      && h'.Running? && h'.pc == target - target % 2
      && h'.regs == Write(x, h.regs, 1, Wrap(x, h.pc + 4) + 4)
  {
    hide SignExtend12, SignExtend32;
    ExecTwo(x, Auipc(1, hi), Jalr(1, 1, lo), h);
    WriteTwice(x, h.regs, 1, h.pc + SignExtend32(hi * 0x1000), Wrap(x, h.pc + 4) + 4);
  }

  /** CALL jumps to pc + offset (with bit 0 cleared, as JALR does) and links x1 to the following
      instruction, on RV32 always and on RV64 exactly when the offset is below 0x7FFFF800: above
      that, incrementing the upper part makes AUIPC subtract 2^31. */
  lemma CallTarget(x: Xlen, offset: i32, h: Hart)
    requires h.Running? && WellFormed(x, h)
    ensures Calls(x, offset, h, Run(x, CallWords(offset), h))
  {
    hide Exec, ExecAll, SignExtend12, SignExtend32, CallUpper, CallLower, Write, EncodeAll, Run;
    EncodedRuns(x, CallCode(offset), h);
    CallSplit(offset);
    CallReaches(x, CallUpper(offset), CallLower(offset), offset, h);
  }

  function CallWords(offset: i32): (ws: seq<u32>)
    ensures |ws| == 2
  {
    EncodeAll(CallCode(offset))
  }

  /** The return address is in x1, and the target is reached if and only if the hart is RV32 or the
      offset is below 0x7FFFF800. */
  predicate Calls(x: Xlen, offset: i32, h: Hart, h': Hart) {
    && h.Running? && h'.Running? && |h.regs| == 32
    && h'.regs == Write(x, h.regs, 1, h.pc + 8)
    && var wanted := Wrap(x, h.pc + offset);
       h'.pc == wanted - wanted % 2 <==> x == RV32 || offset < 0x7FFF_F800
  }

  lemma CallReaches(x: Xlen, hi: int, lo: int, offset: i32, h: Hart)
    requires h.Running? && WellFormed(x, h) && SignExtend12(lo) == lo
    requires var sum := SignExtend32(hi * 0x1000) + lo; sum == offset || sum == offset - TWO32
    ensures var h' := ExecAll(x, [Auipc(1, hi), Jalr(1, 1, lo)], h);
      var wanted := Wrap(x, h.pc + offset);
      && h'.Running?
      && h'.regs == Write(x, h.regs, 1, h.pc + 8)
      && (h'.pc == wanted - wanted % 2 <==> x == RV32 || SignExtend32(hi * 0x1000) + lo == offset)
  {
    ReduceSum(x, h.pc + 4, 4);
    WriteCongruent(x, h.regs, 1, Wrap(x, h.pc + 4) + 4, h.pc + 8);
    hide *;
    CallExec(x, hi, lo, h);
    CallArithmetic(x, h.pc, SignExtend32(hi * 0x1000), lo, offset);
  }

  lemma CallArithmetic(x: Xlen, pc: int, hi: int, lo: int, offset: i32)
    requires hi + lo == offset || hi + lo == offset - TWO32
    ensures var target := Wrap(x, Wrap(x, pc + hi) + lo);
      var wanted := Wrap(x, pc + offset);
      target - target % 2 == wanted - wanted % 2 <==> x == RV32 || hi + lo == offset
  {
    ReduceSum(x, pc + hi, lo);
    MissedTarget(pc + offset);
    assert pc + hi + lo == pc + offset || pc + hi + lo == pc + offset - TWO32;
  }

  lemma ReduceSum32(a: int, b: int)
    ensures (a % TWO32 + b) % TWO32 == (a + b) % TWO32
  {
    var k := a / TWO32;
    assert a + b == a % TWO32 + b + k * TWO32;
  }

  lemma ReduceSum(x: Xlen, a: int, b: int)
    ensures Wrap(x, Wrap(x, a) + b) == Wrap(x, a + b)
  {
    if x == RV32 {
      ReduceSum32(a, b);
    } else {
      ReduceSum64(a, b);
    }
  }

  lemma RemainderUnique(d: int, r: int)
    requires 0 <= r < TWO64
    ensures (d * TWO64 + r) % TWO64 == r
  {
  }

  /** Off by 2^32: invisible to a 32-bit program counter, visible to a 64-bit one. */
  lemma SameLow32(w: int)
    ensures (w - TWO32) % TWO32 == w % TWO32
  {
  }

  lemma Missed64(w: int) returns (m: int)
    ensures m == (w - TWO32) % TWO64 && (m == w % TWO64 - TWO32 || m == w % TWO64 - TWO32 + TWO64)
  {
    var d, g := w / TWO64, w % TWO64;
    if g >= TWO32 {
      m := g - TWO32;
      RemainderUnique(d, m);
    } else {
      m := g - TWO32 + TWO64;
      RemainderUnique(d - 1, m);
    }
  }

  lemma MissedTarget(w: int)
    ensures (w - TWO32) % TWO32 == w % TWO32
    ensures var m, g := (w - TWO32) % TWO64, w % TWO64; m - m % 2 != g - g % 2
  {
    SameLow32(w);
    var m := Missed64(w);
  }
}
