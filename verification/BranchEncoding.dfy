/** Branch immediates of the biscuit assembler: the four forms that take labels, the scrambling
    of their offsets by assembler_util.hpp, and what the hardware reads back. Offsets are plain
    integers; the bit fields of a two's complement negative are its floor quotients and remainders. */
module BranchEncoding {
  import opened Words
  import opened RiscV

  /** B: conditional branches. J: JAL. CB: C.BEQZ and C.BNEZ. CJ: C.J and C.JAL. */
  datatype Form = B | J | CB | CJ

  function Size(form: Form): nat {
    if form == B || form == J then 4 else 2
  }

  /** The ranges that the IsValid*Imm assertions admit. */
  predicate InRange(form: Form, offset: int) {
    match form
    case B => -0x1000 <= offset <= 0xFFF
    case J => -0x8_0000 <= offset <= 0x7_FFFF
    case CB => -0x100 <= offset <= 0xFF
    case CJ => -0x800 <= offset <= 0x7FF
  }

  // ---------------------------------------------------------------- bitwise or

  function Or(a: nat, b: nat): nat {
    if a == 0 then b
    else if b == 0 then a
    else 2 * Or(a / 2, b / 2) + if a % 2 == 1 || b % 2 == 1 then 1 else 0
  }

  /** Or works field by field: words may be cut at any bit position. */
  lemma {:induction false} OrSplit(n: nat, a1: nat, a0: nat, b1: nat, b0: nat)
    requires a0 < Pow2(n) && b0 < Pow2(n)
    ensures Or(a1 * Pow2(n) + a0, b1 * Pow2(n) + b0) == Or(a1, b1) * Pow2(n) + Or(a0, b0)
  {
    if n == 0 {
    } else {
      var p := Pow2(n - 1);
      assert Pow2(n) == 2 * p;
      hide Or, Pow2;
      OrSplit(n - 1, a1, a0 / 2, b1, b0 / 2);
      OrDouble(a1, p, a0, b1, b0);
    }
  }

  /** Moving the cut one bit up. */
  lemma OrDouble(a1: nat, p: nat, a0: nat, b1: nat, b0: nat)
    requires Or(a1 * p + a0 / 2, b1 * p + b0 / 2) == Or(a1, b1) * p + Or(a0 / 2, b0 / 2)
    ensures Or(a1 * (2 * p) + a0, b1 * (2 * p) + b0) == Or(a1, b1) * (2 * p) + Or(a0, b0)
  {
    hide Or;
    Halve(a1, p, a0);
    Halve(b1, p, b0);
    var c := Or(a1, b1) * p;
    assert Or(a1, b1) * (2 * p) == 2 * c;
    OrLift(a1 * (2 * p) + a0, b1 * (2 * p) + b0, a0, b0, c);
  }

  lemma OrLift(a: nat, b: nat, a0: nat, b0: nat, c: nat)
    requires a % 2 == a0 % 2 && b % 2 == b0 % 2
    requires Or(a / 2, b / 2) == c + Or(a0 / 2, b0 / 2)
    ensures Or(a, b) == 2 * c + Or(a0, b0)
  {
    hide Or;
    OrHalves(a, b);
    OrHalves(a0, b0);
  }

  lemma Halve(q: nat, p: nat, r: nat)
    ensures (q * (2 * p) + r) / 2 == q * p + r / 2 && (q * (2 * p) + r) % 2 == r % 2
  {
    assert q * (2 * p) == 2 * (q * p);
  }

  lemma OrHalves(a: nat, b: nat)
    ensures Or(a, b) == 2 * Or(a / 2, b / 2) + if a % 2 == 1 || b % 2 == 1 then 1 else 0
  {
    assert Or(0, b / 2) == b / 2;
    assert a / 2 == 0 || b / 2 != 0 || Or(a / 2, 0) == a / 2;
  }

  lemma OrCut(n: nat, p: nat, a1: nat, a0: nat, b1: nat, b0: nat)
    requires p == Pow2(n) && a0 < p && b0 < p
    ensures Or(a1 * p + a0, b1 * p + b0) == Or(a1, b1) * p + Or(a0, b0)
  {
    hide Or, Pow2;
    OrSplit(n, a1, a0, b1, b0);
  }

  /** Fields on either side of a cut share no bit, so their Or is their sum. */
  lemma OrApart(n: nat, p: nat, hi: nat, lo: nat)
    requires p == Pow2(n) && lo < p
    ensures Or(lo, hi * p) == hi * p + lo
    ensures Or(hi * p, lo) == hi * p + lo
  {
    assert Or(0, hi) == hi == Or(hi, 0) && Or(lo, 0) == lo == Or(0, lo);
    hide Or, Pow2;
    OrCut(n, p, 0, lo, hi, 0);
    OrCut(n, p, hi, 0, 0, lo);
  }

  lemma SmallPowers()
    ensures Pow2(2) == 4 && Pow2(3) == 8 && Pow2(5) == 32 && Pow2(7) == 0x80
    ensures Pow2(12) == 0x1000 && Pow2(13) == 0x2000
  {
    assert Pow2(12) == 0x1000;
    assert Pow2(13) == 2 * Pow2(12);
  }

  // ---------------------------------------------------------------- the immediates

  /** A bit field of an offset. */
  function Bits(d: int, low: int, width: int): (v: int)
    requires low > 0 && width > 0
    ensures 0 <= v < width
  {
    d / low % width
  }

  function TransformB(d: int): nat {
    Bits(d, 0x20, 64) * 0x200_0000 + Bits(d, 0x1000, 2) * 0x8000_0000
    + Bits(d, 2, 16) * 0x100 + Bits(d, 0x800, 2) * 0x80
  }

  function TransformJ(d: int): nat {
    Bits(d, 0x1000, 256) * 0x1000 + Bits(d, 0x800, 2) * 0x10_0000
    + Bits(d, 2, 1024) * 0x20_0000 + Bits(d, 0x10_0000, 2) * 0x8000_0000
  }

  function TransformCB(d: int): nat {
    Bits(d, 0x40, 4) * 32 + Bits(d, 2, 4) * 8 + Bits(d, 0x20, 2) * 4
    + Bits(d, 8, 4) * 0x400 + Bits(d, 0x100, 2) * 0x1000
  }

  /** Here imm[3:1] is moved onto bits 7:5, which imm[6] and imm[7] also use. */
  function TransformCJ(d: int): nat {
    Bits(d, 0x800, 2) * 0x1000 + Bits(d, 16, 2) * 0x800 + Bits(d, 0x100, 4) * 0x200 + Bits(d, 0x400, 2) * 0x100
    + Or(Bits(d, 0x40, 2) * 0x80 + Bits(d, 0x80, 2) * 0x40, Bits(d, 2, 8) * 32) + Bits(d, 0x20, 2) * 4
  }

  function Transform(form: Form, d: int): nat {
    match form
    case B => TransformB(d)
    case J => TransformJ(d)
    case CB => TransformCB(d)
    case CJ => TransformCJ(d)
  }

  /** What the hardware reads. */
  function Immediate(form: Form, w: u32): int {
    match form
    case B => BImmediate(w)
    case J => JImmediate(w)
    case CB => CBImmediate(w)
    case CJ => CJImmediate(w)
  }

  /** Instruction words of a form whose immediate bits are all zero. */
  predicate Blank(form: Form, w: u32) {
    match form
    case B => w < 0x200_0000 && w % 0x1000 == 0x63
    case J => w < 0x1000 && w % 0x80 == 0x6F
    case CB => w < 0x1_0000 && w >= 0xC000 && w % 0x80 == 1 && w / 0x400 % 8 == 0
    case CJ => w == 0x2001 || w == 0xA001
  }

  // ---------------------------------------------------------------- B-type

  lemma BOr(f: nat, d: int)
    requires f < 0x2000
    ensures Or(f * 0x1000 + 0x63, TransformB(d)) == f * 0x1000 + 0x63 + TransformB(d)
  {
    var x := Bits(d, 0x20, 64) + Bits(d, 0x1000, 2) * 64;
    var y := Bits(d, 2, 16) * 2 + Bits(d, 0x800, 2);
    assert TransformB(d) == x * 0x2000 * 0x1000 + y * 0x80;
    hide Or, TransformB, Bits;
    BOrFields(f, x, y);
  }

  lemma BOrFields(f: nat, x: nat, y: nat)
    requires f < 0x2000 && y < 32
    ensures Or(f * 0x1000 + 0x63, x * 0x2000 * 0x1000 + y * 0x80) == f * 0x1000 + 0x63 + x * 0x2000 * 0x1000 + y * 0x80
  {
    SmallPowers();
    hide Or, Pow2;
    OrCut(12, 0x1000, f, 0x63, x * 0x2000, y * 0x80);
    OrApart(13, 0x2000, x, f);
    OrApart(7, 0x80, y, 0x63);
  }

  lemma BBits(d: int)
    requires -0x1000 <= d <= 0xFFF
    ensures Bits(d, 0x800, 2) * 0x800 + Bits(d, 2, 16) * 2 + Bits(d, 0x20, 64) * 32
      - Bits(d, 0x1000, 2) * 0x1000 == d - d % 2
  {
    assert d / 2 / 16 == d / 0x20 && d / 0x20 / 64 == d / 0x800 && d / 0x800 / 2 == d / 0x1000;
    assert d / 0x1000 == 0 || d / 0x1000 == -1;
  }

  lemma BReads(f: nat, d: int)
    requires f < 0x2000 && -0x1000 <= d <= 0xFFF
    ensures var w := f * 0x1000 + 0x63 + TransformB(d);
      w < TWO32 && BImmediate(w) == d - d % 2 && w % 0x80 == 0x63 && w / 0x1000 % 0x2000 == f
  {
    hide Bits;
    BBits(d);
    BFields(f * 0x1000 + 0x63 + TransformB(d), f,
      Bits(d, 0x800, 2), Bits(d, 2, 16), Bits(d, 0x20, 64), Bits(d, 0x1000, 2));
  }

  lemma BFields(w: int, f: nat, i11: nat, i4: nat, i10: nat, i12: nat)
    requires f < 0x2000 && i11 < 2 && i4 < 16 && i10 < 64 && i12 < 2
    requires w == 0x8000_0000 * i12 + 0x200_0000 * i10 + 0x1000 * f + 0x100 * i4 + 0x80 * i11 + 0x63
    ensures BImmediate(w) == i11 * 0x800 + i4 * 2 + i10 * 32 - i12 * 0x1000
    ensures w % 0x80 == 0x63 && w / 0x1000 % 0x2000 == f
  {
    Field(w, 0, 2, i12, 0x8000_0000, 0x200_0000 * i10 + 0x1000 * f + 0x100 * i4 + 0x80 * i11 + 0x63);
    Field(w, i12, 64, i10, 0x200_0000, 0x1000 * f + 0x100 * i4 + 0x80 * i11 + 0x63);
    Field(w, i12 * 64 + i10, 0x2000, f, 0x1000, 0x100 * i4 + 0x80 * i11 + 0x63);
    Field(w, (i12 * 64 + i10) * 0x2000 + f, 16, i4, 0x100, 0x80 * i11 + 0x63);
    Field(w, ((i12 * 64 + i10) * 0x2000 + f) * 16 + i4, 2, i11, 0x80, 0x63);
    Field(w, (((i12 * 64 + i10) * 0x2000 + f) * 16 + i4) * 2 + i11, 0x80, 0x63, 1, 0);
  }

  // ---------------------------------------------------------------- J-type

  lemma JOr(w: nat, d: int)
    requires w < 0x1000
    ensures Or(w, TransformJ(d)) == w + TransformJ(d)
  {
    var x := Bits(d, 0x1000, 256) + Bits(d, 0x800, 2) * 0x100 + Bits(d, 2, 1024) * 0x200
      + Bits(d, 0x10_0000, 2) * 0x8_0000;
    assert TransformJ(d) == x * 0x1000;
    SmallPowers();
    hide Or, TransformJ, Pow2, Bits;
    OrApart(12, 0x1000, x, w);
  }

  lemma JBits(d: int)
    requires -0x8_0000 <= d <= 0x7_FFFF
    ensures Bits(d, 0x1000, 256) * 0x1000 + Bits(d, 0x800, 2) * 0x800 + Bits(d, 2, 1024) * 2
      - Bits(d, 0x10_0000, 2) * 0x10_0000
      == d - d % 2
  {
    assert d / 2 / 1024 == d / 0x800 && d / 0x800 / 2 == d / 0x1000 && d / 0x1000 / 256 == d / 0x10_0000;
    assert d / 0x10_0000 == 0 || d / 0x10_0000 == -1;
  }

  lemma JReads(v: nat, d: int)
    requires v < 0x1000 && -0x8_0000 <= d <= 0x7_FFFF
    ensures var w := v + TransformJ(d);
      w < TWO32 && JImmediate(w) == d - d % 2 && w % 0x1000 == v
  {
    hide Bits;
    JBits(d);
    JFields(v + TransformJ(d), v, Bits(d, 0x1000, 256), Bits(d, 0x800, 2), Bits(d, 2, 1024), Bits(d, 0x10_0000, 2));
  }

  lemma JFields(w: int, v: nat, i19: nat, i11: nat, i10: nat, i20: nat)
    requires v < 0x1000 && i19 < 256 && i11 < 2 && i10 < 1024 && i20 < 2
    requires w == 0x8000_0000 * i20 + 0x20_0000 * i10 + 0x10_0000 * i11 + 0x1000 * i19 + v
    ensures JImmediate(w) == i19 * 0x1000 + i11 * 0x800 + i10 * 2 - i20 * 0x10_0000
    ensures w % 0x1000 == v
  {
    Field(w, 0, 2, i20, 0x8000_0000, 0x20_0000 * i10 + 0x10_0000 * i11 + 0x1000 * i19 + v);
    Field(w, i20, 1024, i10, 0x20_0000, 0x10_0000 * i11 + 0x1000 * i19 + v);
    Field(w, i20 * 1024 + i10, 2, i11, 0x10_0000, 0x1000 * i19 + v);
    Field(w, (i20 * 1024 + i10) * 2 + i11, 256, i19, 0x1000, v);
    Field(w, ((i20 * 1024 + i10) * 2 + i11) * 256 + i19, 0x1000, v, 1, 0);
  }

  // ---------------------------------------------------------------- CB-type

  lemma CBOr(f3: nat, rs: nat, d: int)
    requires f3 < 8 && rs < 8
    ensures Or(f3 * 0x2000 + rs * 0x80 + 1, TransformCB(d)) == f3 * 0x2000 + rs * 0x80 + 1 + TransformCB(d)
  {
    var x := Bits(d, 8, 4) + Bits(d, 0x100, 2) * 4;
    var y := Bits(d, 0x20, 2) + Bits(d, 2, 4) * 2 + Bits(d, 0x40, 4) * 8;
    assert TransformCB(d) == x * 0x400 + y * 4;
    hide Or, TransformCB, Bits;
    CBOrFields(f3, rs, x, y);
  }

  lemma CBOrFields(f3: nat, rs: nat, x: nat, y: nat)
    requires f3 < 8 && rs < 8 && x < 8 && y < 32
    ensures Or(f3 * 0x2000 + rs * 0x80 + 1, x * 0x400 + y * 4) == f3 * 0x2000 + rs * 0x80 + 1 + x * 0x400 + y * 4
  {
    SmallPowers();
    hide Or, Pow2;
    OrCut(7, 0x80, f3 * 64 + rs, 1, x * 8, y * 4);
    OrApart(2, 4, y, 1);
    OrCut(3, 8, f3 * 8, rs, x, 0);
    OrApart(3, 8, f3, x);
    OrApart(3, 8, 0, rs);
  }

  lemma CBBits(d: int)
    requires -0x100 <= d <= 0xFF
    ensures Bits(d, 0x20, 2) * 32 + Bits(d, 2, 4) * 2 + Bits(d, 0x40, 4) * 64 + Bits(d, 8, 4) * 8
      - Bits(d, 0x100, 2) * 0x100 == d - d % 2
  {
    assert d / 2 / 4 == d / 8 && d / 8 / 4 == d / 0x20 && d / 0x20 / 2 == d / 0x40 && d / 0x40 / 4 == d / 0x100;
    assert d / 0x100 == 0 || d / 0x100 == -1;
  }

  lemma CBReads(f3: nat, rs: nat, d: int)
    requires f3 < 8 && rs < 8 && -0x100 <= d <= 0xFF
    ensures var w := f3 * 0x2000 + rs * 0x80 + 1 + TransformCB(d);
      w < 0x1_0000 && CBImmediate(w) == d - d % 2 && w % 4 == 1 && w / 0x2000 == f3 && w / 0x80 % 8 == rs
  {
    hide Bits;
    CBBits(d);
    CBFields(f3 * 0x2000 + rs * 0x80 + 1 + TransformCB(d), f3, rs,
             Bits(d, 0x20, 2), Bits(d, 2, 4), Bits(d, 0x40, 4), Bits(d, 8, 4), Bits(d, 0x100, 2));
  }

  lemma CBFields(w: int, f3: nat, rs: nat, i5: nat, i2: nat, i7: nat, i4: nat, i8: nat)
    requires rs < 8 && i5 < 2 && i2 < 4 && i7 < 4 && i4 < 4 && i8 < 2
    requires w == 0x2000 * f3 + 0x1000 * i8 + 0x400 * i4 + 0x80 * rs + 32 * i7 + 8 * i2 + 4 * i5 + 1
    ensures CBImmediate(w) == i5 * 32 + i2 * 2 + i7 * 64 + i4 * 8 - i8 * 0x100
    ensures w % 4 == 1 && w / 0x2000 == f3 && w / 0x80 % 8 == rs
  {
    Peel(f3, 0x2000, 0x1000 * i8 + 0x400 * i4 + 0x80 * rs + 32 * i7 + 8 * i2 + 4 * i5 + 1);
    Field(w, f3, 2, i8, 0x1000, 0x400 * i4 + 0x80 * rs + 32 * i7 + 8 * i2 + 4 * i5 + 1);
    Field(w, f3 * 2 + i8, 4, i4, 0x400, 0x80 * rs + 32 * i7 + 8 * i2 + 4 * i5 + 1);
    Field(w, (f3 * 2 + i8) * 4 + i4, 8, rs, 0x80, 32 * i7 + 8 * i2 + 4 * i5 + 1);
    Field(w, ((f3 * 2 + i8) * 4 + i4) * 8 + rs, 4, i7, 32, 8 * i2 + 4 * i5 + 1);
    Field(w, (((f3 * 2 + i8) * 4 + i4) * 8 + rs) * 4 + i7, 4, i2, 8, 4 * i5 + 1);
    Field(w, ((((f3 * 2 + i8) * 4 + i4) * 8 + rs) * 4 + i7) * 4 + i2, 2, i5, 4, 1);
  }

  // ---------------------------------------------------------------- CJ-type

  /** The overlapping bits 7:5 after the Or: bit 7 is imm[6] or imm[3], bit 6 is imm[7] or imm[2]. */
  lemma CJOverlap(i6: nat, i7: nat, t: nat)
    requires i6 < 2 && i7 < 2 && t < 8
    ensures Or(i6 * 0x80 + i7 * 0x40, t * 32) == Or(i6 * 4 + i7 * 2, t) * 32
  {
    SmallPowers();
    assert Or(0, 0) == 0;
    hide Or, Pow2;
    OrCut(5, 32, i6 * 4 + i7 * 2, 0, t, 0);
  }

  lemma OrThreeBits(u: nat, t: nat)
    requires u < 8 && t < 8
    ensures Or(u, t) < 8 && (u % 2 == 0 ==> Or(u, t) % 2 == t % 2) && (t == 0 ==> Or(u, t) == u)
  {
    assert Or(0, 0) == 0 && Or(u, 0) == u;
    hide Or;
    OrHalves(u, t);
    OrHalves(u / 2, t / 2);
    OrHalves(u / 2 / 2, t / 2 / 2);
    assert u / 2 / 2 / 2 == 0 && t / 2 / 2 / 2 == 0;
  }

  lemma CJOr(f3: nat, t: nat)
    requires t % 4 == 0 && t < 0x2000
    ensures Or(f3 * 0x2000 + 1, t) == f3 * 0x2000 + 1 + t
  {
    SmallPowers();
    assert Or(f3, 0) == f3;
    hide Or, Pow2;
    OrCut(13, 0x2000, f3, 1, 0, t);
    OrApart(2, 4, t / 4, 1);
  }

  lemma CJBits(d: int)
    requires -0x800 <= d <= 0x7FF
    ensures Bits(d, 0x20, 2) * 32 + Bits(d, 0x80, 2) * 128 + Bits(d, 0x40, 2) * 64 + Bits(d, 0x400, 2) * 0x400
      + Bits(d, 0x100, 4) * 0x100
      + Bits(d, 16, 2) * 16 - Bits(d, 0x800, 2) * 0x800 == d - d % 16
  {
    assert d / 16 / 2 == d / 0x20 && d / 0x20 / 2 == d / 0x40 && d / 0x40 / 2 == d / 0x80 && d / 0x80 / 2 == d / 0x100;
    assert d / 0x100 / 4 == d / 0x400 && d / 0x400 / 2 == d / 0x800;
    assert d / 0x800 == 0 || d / 0x800 == -1;
  }

  /** Bits 7:5 of the transformed offset. */
  function CJOverlapped(d: int): nat {
    Or(Bits(d, 0x40, 2) * 4 + Bits(d, 0x80, 2) * 2, Bits(d, 2, 8))
  }

  lemma CJTransformed(d: int)
    ensures TransformCJ(d) == 0x1000 * (Bits(d, 0x800, 2)) + 0x800 * (Bits(d, 16, 2)) + 0x200 * (Bits(d, 0x100, 4))
      + 0x100 * (Bits(d, 0x400, 2)) + 32 * CJOverlapped(d) + 4 * (Bits(d, 0x20, 2))
    ensures CJOverlapped(d) < 8 && CJOverlapped(d) % 2 == d % 16 / 2 % 2
    ensures d % 16 / 2 == 0 ==> CJOverlapped(d) == Bits(d, 0x40, 2) * 4 + Bits(d, 0x80, 2) * 2
  {
    hide Or, Bits;
    var i6, i7, t := Bits(d, 0x40, 2), Bits(d, 0x80, 2), Bits(d, 2, 8);
    LowNibble(d);
    CJOverlap(i6, i7, t);
    OrThreeBits(i6 * 4 + i7 * 2, t);
  }

  lemma LowNibble(d: int)
    ensures Bits(d, 2, 8) == d % 16 / 2
  {
  }

  lemma CJShape(d: int)
    ensures TransformCJ(d) % 4 == 0 && TransformCJ(d) < 0x2000
  {
    CJTransformed(d);
    hide TransformCJ, CJOverlapped, Bits;
    var k := 0x400 * Bits(d, 0x800, 2) + 0x200 * Bits(d, 16, 2) + 0x80 * Bits(d, 0x100, 4)
      + 0x40 * Bits(d, 0x400, 2) + 8 * CJOverlapped(d) + Bits(d, 0x20, 2);
    assert TransformCJ(d) == 4 * k;
  }

  /** What C.J and C.JAL make of an offset: right exactly for offsets whose low four bits are zero. */
  lemma CJReads(f3: nat, d: int)
    requires f3 < 8 && -0x800 <= d <= 0x7FF
    ensures var w := f3 * 0x2000 + 1 + TransformCJ(d);
      && w < 0x1_0000 && w % 4 == 1 && w / 0x2000 == f3
      && (CJImmediate(w) == d <==> d % 16 == 0)
  {
    hide Bits, TransformCJ, CJOverlapped, CJImmediate;
    CJTransformed(d);
    CJShape(d);
    CJBits(d);
    CJReadsBits(f3 * 0x2000 + 1 + TransformCJ(d), f3, d, d % 16, Bits(d, 0x800, 2), Bits(d, 16, 2), Bits(d, 0x100, 4),
                Bits(d, 0x400, 2), Bits(d, 0x20, 2), Bits(d, 0x40, 2), Bits(d, 0x80, 2), CJOverlapped(d));
  }

  lemma CJReadsBits(w: int, f3: nat, d: int, m: nat, i11: nat, i4: nat, i9: nat, i10: nat,
                    i5: nat, i6: nat, i7: nat, r: nat)
    requires m < 16 && i11 < 2 && i4 < 2 && i9 < 4 && i10 < 2 && i5 < 2 && i6 < 2 && i7 < 2 && r < 8
    requires w == 0x2000 * f3 + 0x1000 * i11 + 0x800 * i4 + 0x200 * i9 + 0x100 * i10 + 32 * r + 4 * i5 + 1
    requires d == i5 * 32 + i7 * 128 + i6 * 64 + i10 * 0x400 + i9 * 0x100 + i4 * 16 - i11 * 0x800 + m
    requires r % 2 == m / 2 % 2 && (m / 2 == 0 ==> r == i6 * 4 + i7 * 2)
    ensures w / 0x2000 == f3 && w % 4 == 1 && (CJImmediate(w) == d <==> m == 0)
  {
    hide CJImmediate;
    CJFields(w, f3, i11, i4, i9, i10, r / 4, r / 2 % 2, r % 2, i5);
    CJDecide(d, m, i5 * 32 + i10 * 0x400 + i9 * 0x100 + i4 * 16 - i11 * 0x800, i6, i7, r / 4, r / 2 % 2, r % 2);
  }

  /** The bits that the overlap may disturb are right exactly when the low four bits m of d are zero. */
  lemma CJDecide(d: int, m: int, sum: int, i6: nat, i7: nat, r2: nat, r1: nat, r0: nat)
    requires 0 <= m < 16 && i6 < 2 && i7 < 2 && r2 < 2 && r1 < 2 && r0 < 2
    requires d == sum + i6 * 64 + i7 * 128 + m
    requires r0 == m / 2 % 2 && (m / 2 == 0 ==> r2 == i6 && r1 == i7 && r0 == 0)
    ensures (sum + r0 * 8 + r1 * 128 + r2 * 64 == d) <==> m == 0
  {
    if m == 1 {
      assert sum + r0 * 8 + r1 * 128 + r2 * 64 == d - 1;
    }
  }

  lemma CJFields(w: int, f3: nat, i11: nat, i4: nat, i9: nat, i10: nat, r2: nat, r1: nat, r0: nat, i5: nat)
    requires i11 < 2 && i4 < 2 && i9 < 4 && i10 < 2 && r2 < 2 && r1 < 2 && r0 < 2 && i5 < 2
    requires w == 0x2000 * f3 + 0x1000 * i11 + 0x800 * i4 + 0x200 * i9 + 0x100 * i10
      + 0x80 * r2 + 0x40 * r1 + 32 * r0 + 4 * i5 + 1
    ensures w / 0x2000 == f3 && w % 4 == 1
    ensures CJImmediate(w) == i5 * 32 + r0 * 8 + r1 * 128 + r2 * 64 + i10 * 0x400 + i9 * 0x100 + i4 * 16 - i11 * 0x800
  {
    var lo := 0x80 * r2 + 0x40 * r1 + 32 * r0 + 4 * i5 + 1;
    Peel(f3, 0x2000, w - 0x2000 * f3);
    Field(w, f3, 2, i11, 0x1000, 0x800 * i4 + 0x200 * i9 + 0x100 * i10 + lo);
    Field(w, f3 * 2 + i11, 2, i4, 0x800, 0x200 * i9 + 0x100 * i10 + lo);
    Field(w, (f3 * 2 + i11) * 2 + i4, 4, i9, 0x200, 0x100 * i10 + lo);
    var h := ((f3 * 2 + i11) * 2 + i4) * 4 + i9;
    Field(w, h, 2, i10, 0x100, lo);
    Field(w, h * 2 + i10, 2, r2, 0x80, 64 * r1 + 32 * r0 + 4 * i5 + 1);
    Field(w, (h * 2 + i10) * 2 + r2, 2, r1, 0x40, 32 * r0 + 4 * i5 + 1);
    Field(w, ((h * 2 + i10) * 2 + r2) * 2 + r1, 8, 4 * r0, 8, 4 * i5 + 1);
    Field(w, (((h * 2 + i10) * 2 + r2) * 2 + r1) * 8 + 4 * r0, 2, i5, 4, 1);
  }

  // ---------------------------------------------------------------- all forms

  /** The tests by which a pending branch is recognised when its label is bound. */
  predicate HasForm(form: Form, w: u32) {
    match form
    case B => w % 0x80 == 0x63
    case J => w % 0x80 == 0x6F
    case CB => w < 0x1_0000 && w % 4 == 1 && w / 0x2000 >= 6
    case CJ => w < 0x1_0000 && w % 4 == 1 && (w / 0x2000 == 1 || w / 0x2000 == 5)
  }

  /** The bits that are not immediate: registers and function codes. */
  function Operands(form: Form, w: u32): int {
    match form
    case B => w / 0x1000 % 0x2000
    case J => w % 0x1000
    case CB => w / 0x2000 * 8 + w / 0x80 % 8
    case CJ => w / 0x2000
  }

  /** The offsets that a form can express. The assembler checks none of this, except that a compressed
      jump to a label that is already bound must span an even distance. */
  predicate Aligned(form: Form, d: int) {
    if form == CJ then d % 16 == 0 else d % 2 == 0
  }

  /** Or-ing a transformed offset into a blank word keeps the instruction, and the hardware then
      reads exactly that offset if and only if it is aligned. */
  lemma OffsetEncoded(form: Form, w: u32, d: int)
    requires Blank(form, w) && InRange(form, d)
    ensures var p := Or(w, Transform(form, d));
      && p < (if Size(form) == 4 then TWO32 else 0x1_0000)
      && HasForm(form, p) && Operands(form, p) == Operands(form, w)
      && (Immediate(form, p) == d <==> Aligned(form, d))
  {
    hide Or, TransformB, TransformJ, TransformCB, TransformCJ, BImmediate, JImmediate, CBImmediate, CJImmediate;
    match form
    case B => EncodedB(w, d);
    case J => JOr(w, d); JReads(w, d); SameOpcode(w, w + TransformJ(d));
    case CB => EncodedCB(w, d);
    case CJ => CJReads(w / 0x2000, d); CJShape(d); CJOr(w / 0x2000, TransformCJ(d));
  }

  lemma SameOpcode(v: int, w: int)
    requires w % 0x1000 == v % 0x1000
    ensures w % 0x80 == v % 0x80
  {
    LowBits(v);
    LowBits(w);
  }

  lemma LowBits(w: int)
    ensures w % 0x1000 % 0x80 == w % 0x80
  {
    var q, r := w / 0x1000, w % 0x1000;
    assert w == (q * 32 + r / 0x80) * 0x80 + r % 0x80;
    Peel(q * 32 + r / 0x80, 0x80, r % 0x80);
  }

  lemma EncodedB(w: u32, d: int)
    requires Blank(B, w) && InRange(B, d)
    ensures var p := Or(w, TransformB(d));
      p < TWO32 && p % 0x80 == 0x63 && p / 0x1000 % 0x2000 == w / 0x1000 && BImmediate(p) == d - d % 2
    ensures w / 0x1000 % 0x2000 == w / 0x1000
  {
    hide Or, TransformB, BImmediate;
    assert w == w / 0x1000 * 0x1000 + 0x63 && w / 0x1000 < 0x2000;
    BOr(w / 0x1000, d);
    BReads(w / 0x1000, d);
  }

  lemma EncodedCB(w: u32, d: int)
    requires Blank(CB, w) && InRange(CB, d)
    ensures var p := Or(w, TransformCB(d));
      && p < 0x1_0000 && p % 4 == 1 && p / 0x2000 == w / 0x2000 && p / 0x80 % 8 == w / 0x80 % 8
      && w / 0x2000 >= 6 && CBImmediate(p) == d - d % 2
  {
    hide Or, TransformCB, CBImmediate;
    BlankCB(w);
    CBOr(w / 0x2000, w / 0x80 % 8, d);
    CBReads(w / 0x2000, w / 0x80 % 8, d);
  }

  lemma BlankCB(w: u32)
    requires Blank(CB, w)
    ensures w == w / 0x2000 * 0x2000 + w / 0x80 % 8 * 0x80 + 1 && 6 <= w / 0x2000 < 8
  {
    assert w / 0x400 / 8 == w / 0x2000;
    assert w / 0x80 / 8 == w / 0x400;
  }

  /** A branch emitted before its label is bound encodes offset zero: the word stays blank. */
  lemma ZeroOffset(form: Form, w: nat)
    ensures Or(w, Transform(form, 0)) == w
  {
    assert forall k, n :: k > 0 && n > 0 ==> Bits(0, k, n) == 0;
    assert Or(w, 0) == w && Or(0, 0) == 0;
    hide Bits, Or;
    assert Transform(form, 0) == 0;
  }

  lemma BlankHasForm(form: Form, w: u32)
    requires Blank(form, w)
    ensures HasForm(form, w)
  {
    if form == CB {
      BlankCB(w);
    }
  }

  // ---------------------------------------------------------------- mnemonics

  /** BEQ, BNE, BLT, BGE, BLTU and BGEU with a blank offset. */
  function BranchWord(funct3: int, rs1: Reg, rs2: Reg): u32
    requires 0 <= funct3 < 8
  {
    rs2 * 0x10_0000 + rs1 * 0x8000 + funct3 * 0x1000 + 0x63
  }

  /** JAL with a blank offset. */
  function JalWord(rd: Reg): u32 {
    rd * 0x80 + 0x6F
  }

  /** C.BEQZ (110) and C.BNEZ (111) of x8 to x15 with a blank offset. */
  function CompressedBranchWord(funct3: int, rs: Reg): u32
    requires 6 <= funct3 < 8 && 8 <= rs < 16
  {
    funct3 * 0x2000 + (rs - 8) * 0x80 + 1
  }

  lemma MnemonicsBlank(funct3: int, rs1: Reg, rs2: Reg)
    requires 0 <= funct3 < 8
    ensures Blank(B, BranchWord(funct3, rs1, rs2)) && Blank(J, JalWord(rs1))
    ensures 6 <= funct3 && 8 <= rs1 < 16 ==> Blank(CB, CompressedBranchWord(funct3, rs1))
  {
    Peel(rs2 * 0x100 + rs1 * 8 + funct3, 0x1000, 0x63);
    Peel(rs1, 0x80, 0x6F);
    if 6 <= funct3 && 8 <= rs1 < 16 {
      var w := CompressedBranchWord(funct3, rs1);
      Field(w, funct3, 8, 0, 0x400, (rs1 - 8) * 0x80 + 1);
      Peel(funct3 * 64 + (rs1 - 8), 0x80, 1);
    }
  }

  /** A branch word with these operand bits decodes to the branch that was asked for. */
  lemma BranchDecodes(x: Xlen, w: u32, funct3: int, rs1: Reg, rs2: Reg)
    requires 0 <= funct3 < 8 && funct3 != 2 && funct3 != 3
    requires HasForm(B, w) && Operands(B, w) == Operands(B, BranchWord(funct3, rs1, rs2))
    ensures Decode(x, w) == Branch(funct3, rs1, rs2, BImmediate(w))
  {
    var o := rs2 * 0x100 + rs1 * 8 + funct3;
    Field(BranchWord(funct3, rs1, rs2), 0, 0x2000, o, 0x1000, 0x63);
    var h, lo := w / 0x1000 / 0x2000, w % 0x1000;
    assert w == (h * 0x2000 + o) * 0x1000 + lo;
    Field(w, h * 0x400 + rs2 * 32 + rs1, 8, funct3, 0x1000, lo);
    Field(w, h * 32 + rs2, 32, rs1, 0x8000, funct3 * 0x1000 + lo);
    Field(w, h, 32, rs2, 0x10_0000, rs1 * 0x8000 + funct3 * 0x1000 + lo);
    hide BranchWord, BImmediate, JImmediate;
  }

  /** C.J (101) and C.JAL (001) with a blank offset. */
  function CompressedJumpWord(funct3: int): u32
    requires funct3 == 1 || funct3 == 5
  {
    funct3 * 0x2000 + 1
  }

  /** A jump word with these operand bits decodes to the jump that was asked for. */
  lemma JalDecodes(x: Xlen, w: u32, rd: Reg)
    requires HasForm(J, w) && Operands(J, w) == Operands(J, JalWord(rd))
    ensures Decode(x, w) == Jal(rd, JImmediate(w))
  {
    assert w % 0x1000 == JalWord(rd);
    Field(w, w / 0x1000, 32, rd, 0x80, 0x6F);
    hide BImmediate, JImmediate;
  }

  lemma CompressedBranchDecodes(x: Xlen, w: u32, funct3: int, rs: Reg)
    requires 6 <= funct3 < 8 && 8 <= rs < 16
    requires HasForm(CB, w) && Operands(CB, w) == Operands(CB, CompressedBranchWord(funct3, rs))
    ensures DecodeCompressed(x, w) == Branch(funct3 - 6, rs, 0, CBImmediate(w))
  {
    var v := CompressedBranchWord(funct3, rs);
    Field(v, funct3 * 8, 8, rs - 8, 0x80, 1);
    Peel(funct3, 0x2000, (rs - 8) * 0x80 + 1);
    hide CompressedBranchWord, CBImmediate, CJImmediate;
  }

  lemma CompressedJumpDecodes(x: Xlen, w: u32, funct3: int)
    requires (funct3 == 1 && x == RV32) || funct3 == 5
    requires HasForm(CJ, w) && Operands(CJ, w) == Operands(CJ, CompressedJumpWord(funct3))
    ensures DecodeCompressed(x, w) == Jal(if funct3 == 1 then 1 else 0, CJImmediate(w))
  {
    hide CBImmediate, CJImmediate;
  }
}
