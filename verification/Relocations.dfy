/** The relocation pass of the 32-bit x86 linker, against the formulas of the i386 psABI. */
module Relocations {
  import opened Words

  type Memory = int -> u8

  const R_386_32 := 1
  const R_386_PC32 := 2
  const R_386_GLOB_DAT := 6
  const R_386_JUMP_SLOT := 7
  const R_386_RELATIVE := 8

  datatype Rel = Rel(kind: nat, sym: nat, offset: u32)

  /** What the search for a symbol ends with: the host's hook, a library's definition or the host's
      own symbol, all of which give an address, or nothing, for a weak or a strong reference. */
  datatype Resolution = Address(addr: u32) | Undefined(weak: bool)

  // ---------------------------------------------------------------- words in memory

  function Byte(v: u32, i: int): u8 {
    if i == 0 then v % 256
    else if i == 1 then v / 256 % 256
    else if i == 2 then v / 256 / 256 % 256
    else v / 256 / 256 / 256
  }

  function Join(b0: u8, b1: u8, b2: u8, b3: u8): u32 {
    b0 + 256 * b1 + 65536 * b2 + 16777216 * b3
  }

  lemma JoinBytes(v: u32)
    ensures Join(Byte(v, 0), Byte(v, 1), Byte(v, 2), Byte(v, 3)) == v
  {
  }

  /** The little-endian word at an address. */
  function Read(mem: Memory, a: int): u32 {
    Join(mem(a), mem(a + 1), mem(a + 2), mem(a + 3))
  }

  function Write(mem: Memory, a: int, v: u32): Memory {
    x => if a <= x < a + 4 then Byte(v, x - a) else mem(x)
  }

  // ---------------------------------------------------------------- the psABI

  function Target(base: u32, r: Rel): u32 {
    (r.offset + base) % TWO32
  }

  /** S: the address of the symbol; an undefined weak symbol counts as 0, or as the place itself in a
      relative reference. */
  function SymbolValue(resolve: nat -> Resolution, base: u32, r: Rel): u32 {
    if r.sym == 0 then 0
    else match resolve(r.sym)
      case Address(addr) => addr
      case Undefined(_) => if r.kind == R_386_PC32 then Target(base, r) else 0
  }

  /** The word that the psABI asks for, given the addend A that the place holds: S, S + A, S + A - P or B + A. */
  function PsabiValue(kind: nat, s: u32, a: u32, p: u32, b: u32): u32 {
    if kind == R_386_32 then (s + a) % TWO32
    else if kind == R_386_PC32 then (s + a - p) % TWO32
    else if kind == R_386_RELATIVE then (b + a) % TWO32
    else s
  }

  /** The formulas by the numbers of the relocation types. */
  lemma PsabiTable(s: u32, a: u32, p: u32, b: u32)
    ensures PsabiValue(1, s, a, p, b) == (s + a) % 0x1_0000_0000
    ensures PsabiValue(2, s, a, p, b) == (s + a - p) % 0x1_0000_0000
    ensures PsabiValue(6, s, a, p, b) == s == PsabiValue(7, s, a, p, b)
    ensures PsabiValue(8, s, a, p, b) == (b + a) % 0x1_0000_0000
  {
  }

  /** The entries that can be processed: a known type, a symbol that is defined or weak, and no symbol
      in a base-relative entry. */
  predicate Accepts(resolve: nat -> Resolution, r: Rel) {
    && (r.kind == R_386_32 || r.kind == R_386_PC32 || r.kind == R_386_GLOB_DAT || r.kind == R_386_JUMP_SLOT
        || r.kind == R_386_RELATIVE)
    && (r.sym != 0 ==> r.kind != R_386_RELATIVE && (resolve(r.sym).Address? || resolve(r.sym).weak))
  }

  /** ... by the numbers of the types. */
  lemma AcceptsTable(resolve: nat -> Resolution, r: Rel)
    ensures Accepts(resolve, r) <==>
      && r.kind in {1, 2, 6, 7, 8}
      && (r.sym == 0 || (r.kind != 8 && (resolve(r.sym).Address? || resolve(r.sym).weak)))
  {
  }

  /** The word for an entry, from the memory before the whole pass. */
  function Wanted(mem: Memory, resolve: nat -> Resolution, base: u32, r: Rel): u32 {
    var p := Target(base, r);
    PsabiValue(r.kind, SymbolValue(resolve, base, r), Read(mem, p), p, base)
  }

  predicate Within(base: u32, r: Rel, x: int) {
    Target(base, r) <= x < Target(base, r) + 4
  }

  predicate Apart(base: u32, r: Rel, s: Rel) {
    Target(base, r) + 4 <= Target(base, s) || Target(base, s) + 4 <= Target(base, r)
  }

  /** No two places overlap. */
  ghost predicate Disjoint(base: u32, rels: seq<Rel>) {
    forall i, j :: 0 <= i < j < |rels| ==> Apart(base, rels[i], rels[j])
  }

  /** The byte at x after relocation: part of the word for the entry whose place it is in, if any. */
  ghost predicate Relocated(mem: Memory, mem': Memory, resolve: nat -> Resolution, base: u32, rels: seq<Rel>) {
    && (forall i, x: int :: 0 <= i < |rels| && Within(base, rels[i], x) ==>
          mem'(x) == Byte(Wanted(mem, resolve, base, rels[i]), x - Target(base, rels[i])))
    && (forall x: int :: (forall i :: 0 <= i < |rels| ==> !Within(base, rels[i], x)) ==> mem'(x) == mem(x))
  }

  /** Every place holds the word that the psABI asks for. */
  lemma RelocatedWord(mem: Memory, mem': Memory, resolve: nat -> Resolution, base: u32, rels: seq<Rel>, i: nat)
    requires Relocated(mem, mem', resolve, base, rels) && i < |rels|
    ensures Read(mem', Target(base, rels[i])) == Wanted(mem, resolve, base, rels[i])
  {
    hide Byte, Join, Wanted, Target;
    var p: int, v := Target(base, rels[i]), Wanted(mem, resolve, base, rels[i]);
    JoinBytes(v);
    assert Within(base, rels[i], p) && Within(base, rels[i], p + 1);
    assert Within(base, rels[i], p + 2) && Within(base, rels[i], p + 3);
  }

  /** The order of the entries does not matter. */
  lemma OrderIrrelevant(mem: Memory, m1: Memory, m2: Memory, resolve: nat -> Resolution, base: u32,
                        rels: seq<Rel>, rels': seq<Rel>, x: int)
    requires Relocated(mem, m1, resolve, base, rels) && Relocated(mem, m2, resolve, base, rels')
    requires multiset(rels) == multiset(rels')
    ensures m1(x) == m2(x)
  {
    hide Byte, Wanted, Target, Within;
    assert forall r :: r in rels <==> r in multiset(rels);
    assert forall r :: r in rels' <==> r in multiset(rels');
    if i :| 0 <= i < |rels| && Within(base, rels[i], x) {
      assert rels[i] in rels';
      var j :| 0 <= j < |rels'| && rels'[j] == rels[i];
    } else {
      forall j | 0 <= j < |rels'| ensures !Within(base, rels'[j], x) {
        assert rels'[j] in rels;
      }
    }
  }

  // ---------------------------------------------------------------- the pass

  /** One entry, for which the search of the symbol, if there is one, has answered s. */
  method RelocateOne(mem: Memory, ghost resolve: nat -> Resolution, s: Resolution, base: u32, r: Rel)
      returns (ok: bool, mem': Memory)
    requires r.sym != 0 ==> s == resolve(r.sym)
    ensures ok == Accepts(resolve, r)
    ensures mem' == if ok then Write(mem, Target(base, r), Wanted(mem, resolve, base, r)) else mem
  {
    hide Write, Read;
    ok, mem' := false, mem;
    var reloc := (r.offset + base) % TWO32;
    var symAddr: u32 := 0;
    if r.sym != 0 {
      if s.Address? {
        symAddr := s.addr;
      } else {
        if !s.weak {
          return;
        }
        if r.kind == R_386_PC32 {
          symAddr := reloc;
        } else if !(r.kind == R_386_JUMP_SLOT || r.kind == R_386_GLOB_DAT
                    || r.kind == R_386_32 || r.kind == R_386_RELATIVE) {
          return;
        }
      }
    }
    if r.kind == R_386_JUMP_SLOT || r.kind == R_386_GLOB_DAT {
      mem' := Write(mem, reloc, symAddr);
    } else if r.kind == R_386_RELATIVE {
      if r.sym != 0 {
        return;
      }
      mem' := Write(mem, reloc, (Read(mem, reloc) + base) % TWO32);
    } else if r.kind == R_386_32 {
      mem' := Write(mem, reloc, (Read(mem, reloc) + symAddr) % TWO32);
    } else if r.kind == R_386_PC32 {
      WrapTwice(Read(mem, reloc), symAddr - reloc);
      mem' := Write(mem, reloc, (Read(mem, reloc) + (symAddr - reloc) % TWO32) % TWO32);
    } else {
      return;
    }
    ok := true;
  }

  lemma WrapTwice(a: u32, d: int)
    ensures (a + d % TWO32) % TWO32 == (a + d) % TWO32
  {
  }

  lemma RelocatedNone(mem: Memory, resolve: nat -> Resolution, base: u32)
    ensures Relocated(mem, mem, resolve, base, [])
  {
  }

  /** A place that no entry shares still holds its addend. */
  lemma AddendKept(mem: Memory, m: Memory, resolve: nat -> Resolution, base: u32, rels: seq<Rel>, r: Rel)
    requires Relocated(mem, m, resolve, base, rels) && forall i :: 0 <= i < |rels| ==> Apart(base, rels[i], r)
    ensures Wanted(m, resolve, base, r) == Wanted(mem, resolve, base, r)
  {
    hide Byte, Join, PsabiValue, SymbolValue, Target;
    forall x: int | Within(base, r, x) ensures m(x) == mem(x) {
      forall i | 0 <= i < |rels| ensures !Within(base, rels[i], x) {
        assert Apart(base, rels[i], r);
      }
    }
    var p: int := Target(base, r);
    assert Within(base, r, p) && Within(base, r, p + 1) && Within(base, r, p + 2) && Within(base, r, p + 3);
  }

  lemma RelocatedMore(mem: Memory, m: Memory, resolve: nat -> Resolution, base: u32, rels: seq<Rel>, k: nat)
    requires k < |rels| && Disjoint(base, rels) && Relocated(mem, m, resolve, base, rels[..k])
    ensures Relocated(mem, Write(m, Target(base, rels[k]), Wanted(m, resolve, base, rels[k])),
                      resolve, base, rels[..k + 1])
  {
    hide Byte, Wanted, Target;
    AddendKept(mem, m, resolve, base, rels[..k], rels[k]);
    var m' := Write(m, Target(base, rels[k]), Wanted(m, resolve, base, rels[k]));
    var before, now := rels[..k], rels[..k + 1];
    assert forall i :: 0 <= i < k ==> now[i] == before[i] == rels[i];
    forall i, x: int | 0 <= i < |now| && Within(base, now[i], x)
      ensures m'(x) == Byte(Wanted(mem, resolve, base, now[i]), x - Target(base, now[i]))
    {
      if i < k {
        assert Within(base, before[i], x);
        assert Apart(base, rels[i], rels[k]);
      }
    }
    forall x: int | forall i :: 0 <= i < |now| ==> !Within(base, now[i], x) ensures m'(x) == mem(x) {
      assert !Within(base, now[k], x);
      assert forall i :: 0 <= i < |before| ==> !Within(base, now[i], x);
    }
  }

  lemma RelocatedConcat(mem: Memory, mid: Memory, m: Memory, resolve: nat -> Resolution, base: u32,
                        a: seq<Rel>, b: seq<Rel>)
    requires Disjoint(base, a + b) && Relocated(mem, mid, resolve, base, a) && Relocated(mid, m, resolve, base, b)
    ensures Relocated(mem, m, resolve, base, a + b)
  {
    hide Byte, Wanted, Target;
    var ab := a + b;
    forall i, x: int | 0 <= i < |ab| && Within(base, ab[i], x)
      ensures m(x) == Byte(Wanted(mem, resolve, base, ab[i]), x - Target(base, ab[i]))
    {
      if i < |a| {
        assert Within(base, a[i], x);
        forall j | 0 <= j < |b| ensures !Within(base, b[j], x) {
          assert b[j] == ab[|a| + j] && Apart(base, ab[i], ab[|a| + j]);
        }
      } else {
        assert Within(base, b[i - |a|], x);
        forall j | 0 <= j < |a| ensures Apart(base, a[j], ab[i]) {
          assert a[j] == ab[j];
        }
        AddendKept(mem, mid, resolve, base, a, ab[i]);
      }
    }
    forall x: int | forall i :: 0 <= i < |ab| ==> !Within(base, ab[i], x) ensures m(x) == mem(x) {
      assert forall i :: 0 <= i < |a| ==> !Within(base, ab[i], x) && ab[i] == a[i];
      assert forall i :: 0 <= i < |b| ==> b[i] == ab[|a| + i];
    }
  }

  lemma DisjointParts(base: u32, a: seq<Rel>, b: seq<Rel>)
    requires Disjoint(base, a + b)
    ensures Disjoint(base, a) && Disjoint(base, b)
  {
    hide Apart;
    var ab := a + b;
    forall i, j | 0 <= i < j < |a| ensures Apart(base, a[i], a[j]) {
      assert a[i] == ab[i] && a[j] == ab[j];
    }
    forall i, j | 0 <= i < j < |b| ensures Apart(base, b[i], b[j]) {
      assert b[i] == ab[|a| + i] && b[j] == ab[|a| + j];
    }
  }
}
