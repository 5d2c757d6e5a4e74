/** The biscuit assembler's code buffer, labels and constant loading. */
module Assembler {
  import opened Words
  import opened RiscV
  import opened BranchEncoding
  import opened CodeBytes
  import opened LoadImmediate

  datatype Option<T> = None | Some(value: T)

  /** A label: bound or not, with the offsets of the branches that wait for it. */
  datatype Label = Label(location: Option<nat>, offsets: set<nat>)

  /** A branch to label number `id` that was emitted at `at`; `word` is the instruction with a blank immediate. */
  datatype Ref = Ref(at: nat, form: Form, word: u32, id: nat)

  /** What the code holds for such a branch: the blank word while the label is unbound; once it is
      bound, the same instruction with an offset that reaches the label if and only if the distance
      is aligned. */
  ghost predicate Encoded(code: seq<u8>, r: Ref, location: Option<nat>) {
    && r.at + Size(r.form) <= |code|
    && var w := Fetch(code, r.at, Size(r.form));
       && w < TWO32
       && match location
          case None => w == r.word
          case Some(l) =>
            && HasForm(r.form, w) && Operands(r.form, w) == Operands(r.form, r.word)
            && (Immediate(r.form, w) == l - r.at <==> Aligned(r.form, l - r.at))
  }

  lemma EncodedDepends(a: seq<u8>, b: seq<u8>, r: Ref, location: Option<nat>)
    requires Encoded(a, r, location) && r.at + Size(r.form) <= |b|
    requires forall k :: r.at <= k < r.at + Size(r.form) ==> a[k] == b[k]
    ensures Encoded(b, r, location)
  {
    FetchDepends(a, b, r.at, Size(r.form));
  }

  /** Branches are laid out in the order of their emission and do not overlap. */
  ghost predicate Placed(refs: seq<Ref>, cursor: nat) {
    && (forall i, j :: 0 <= i < j < |refs| ==> refs[i].at + Size(refs[i].form) <= refs[j].at)
    && (forall r <- refs :: r.at + Size(r.form) <= cursor && Blank(r.form, r.word))
  }

  /** A label's pending offsets are exactly the branches to it that are still blank. */
  ghost predicate Pending(refs: seq<Ref>, id: nat, lbl: Label) {
    && (lbl.location.Some? ==> lbl.offsets == {})
    && (lbl.location.None? ==> forall r <- refs :: r.id == id ==> r.at in lbl.offsets)
    && (forall o <- lbl.offsets :: exists r :: r in refs && r.at == o && r.id == id)
  }

  /** The invariant of every run: each branch ever emitted to a label is encoded as it should be. */
  ghost predicate Consistent(code: seq<u8>, refs: seq<Ref>, labels: seq<Label>) {
    && Placed(refs, |code|)
    && (forall r <- refs :: r.id < |labels| && Encoded(code, r, labels[r.id].location))
    && (forall id :: 0 <= id < |labels| ==> Pending(refs, id, labels[id]))
  }

  lemma ConsistentAt(code: seq<u8>, refs: seq<Ref>, labels: seq<Label>, r: Ref)
    requires Consistent(code, refs, labels) && r in refs
    ensures r.id < |labels| && Encoded(code, r, labels[r.id].location)
  {
    hide Encoded, Placed, Pending;
  }

  lemma EncodedBound(code: seq<u8>, refs: seq<Ref>, labels: seq<Label>, r: Ref)
    requires Consistent(code, refs, labels) && r in refs && labels[r.id].location.Some?
    ensures r.at + Size(r.form) <= |code|
    ensures var w, d := Fetch(code, r.at, Size(r.form)), labels[r.id].location.value - r.at;
      && w < TWO32 && HasForm(r.form, w) && Operands(r.form, w) == Operands(r.form, r.word)
      && (Immediate(r.form, w) == d <==> Aligned(r.form, d))
  {
    hide Consistent, Fetch, HasForm, Operands, Immediate, Aligned, Size;
    ConsistentAt(code, refs, labels, r);
  }

  /** What that means for the processor: a conditional branch to a bound label decodes to the branch
      that was asked for, with the distance to the label if and only if that is even. */
  lemma BranchReachesLabel(x: Xlen, code: seq<u8>, refs: seq<Ref>, labels: seq<Label>, r: Ref,
                           funct3: int, rs1: Reg, rs2: Reg)
    requires Consistent(code, refs, labels) && r in refs && labels[r.id].location.Some?
    requires 0 <= funct3 < 8 && funct3 != 2 && funct3 != 3 && r.form == B && r.word == BranchWord(funct3, rs1, rs2)
    ensures var d := labels[r.id].location.value - r.at;
      r.at + 4 <= |code| && var w := Fetch(code, r.at, 4);
      w < TWO32 && (Decode(x, w) == Instr.Branch(funct3, rs1, rs2, d) <==> d % 2 == 0)
  {
    hide Fetch, Decode, BranchWord, HasForm, Operands, BImmediate, Consistent;
    EncodedBound(code, refs, labels, r);
    BranchDecodes(x, Fetch(code, r.at, 4), funct3, rs1, rs2);
  }

  /** The same for JAL. */
  lemma JalReachesLabel(x: Xlen, code: seq<u8>, refs: seq<Ref>, labels: seq<Label>, r: Ref, rd: Reg)
    requires Consistent(code, refs, labels) && r in refs && labels[r.id].location.Some?
    requires r.form == J && r.word == JalWord(rd)
    ensures var d := labels[r.id].location.value - r.at;
      r.at + 4 <= |code| && var w := Fetch(code, r.at, 4);
      w < TWO32 && (Decode(x, w) == Jal(rd, d) <==> d % 2 == 0)
  {
    hide Fetch, Decode, JalWord, HasForm, Operands, JImmediate, Consistent;
    EncodedBound(code, refs, labels, r);
    JalDecodes(x, Fetch(code, r.at, 4), rd);
  }

  /** The same for C.BEQZ and C.BNEZ. */
  lemma CompressedBranchReachesLabel(x: Xlen, code: seq<u8>, refs: seq<Ref>, labels: seq<Label>, r: Ref,
                                     funct3: int, rs: Reg)
    requires Consistent(code, refs, labels) && r in refs && labels[r.id].location.Some?
    requires 6 <= funct3 < 8 && 8 <= rs < 16 && r.form == CB && r.word == CompressedBranchWord(funct3, rs)
    ensures var d := labels[r.id].location.value - r.at;
      r.at + 2 <= |code| && var w := Fetch(code, r.at, 2);
      w < TWO32 && (DecodeCompressed(x, w) == Instr.Branch(funct3 - 6, rs, 0, d) <==> d % 2 == 0)
  {
    hide Fetch, DecodeCompressed, CompressedBranchWord, HasForm, Operands, CBImmediate, Consistent;
    EncodedBound(code, refs, labels, r);
    CompressedBranchDecodes(x, Fetch(code, r.at, 2), funct3, rs);
  }

  /** The same for C.J and C.JAL, whose encoding is right for multiples of 16 only. */
  lemma CompressedJumpReachesLabel(x: Xlen, code: seq<u8>, refs: seq<Ref>, labels: seq<Label>, r: Ref, funct3: int)
    requires Consistent(code, refs, labels) && r in refs && labels[r.id].location.Some?
    requires (funct3 == 1 && x == RV32) || funct3 == 5
    requires r.form == CJ && r.word == CompressedJumpWord(funct3)
    ensures var d := labels[r.id].location.value - r.at;
      r.at + 2 <= |code| && var w := Fetch(code, r.at, 2);
      w < TWO32 && (DecodeCompressed(x, w) == Jal(if funct3 == 1 then 1 else 0, d) <==> d % 16 == 0)
  {
    hide Fetch, DecodeCompressed, CompressedJumpWord, HasForm, Operands, CJImmediate, Consistent;
    EncodedBound(code, refs, labels, r);
    CompressedJumpDecodes(x, Fetch(code, r.at, 2), funct3);
  }

  lemma ConsistentAppend(code: seq<u8>, more: seq<u8>, refs: seq<Ref>, labels: seq<Label>)
    requires Consistent(code, refs, labels)
    ensures Consistent(code + more, refs, labels)
  {
    forall r | r in refs ensures Encoded(code + more, r, labels[r.id].location) {
      EncodedDepends(code, code + more, r, labels[r.id].location);
    }
  }

  /** AddOffset, when the label is unbound. */
  function Linked(lbl: Label, at: nat): Label {
    if lbl.location.None? then lbl.(offsets := lbl.offsets + {at}) else lbl
  }

  lemma PendingLinked(refs: seq<Ref>, r: Ref, id: nat, lbl: Label)
    requires Pending(refs, id, lbl)
    ensures Pending(refs + [r], id, if r.id == id then Linked(lbl, r.at) else lbl)
  {
    var lbl' := if r.id == id then Linked(lbl, r.at) else lbl;
    forall o | o in lbl'.offsets ensures exists s :: s in refs + [r] && s.at == o && s.id == id {
      if o in lbl.offsets {
        var s :| s in refs && s.at == o && s.id == id;
        assert s in refs + [r];
      } else {
        assert r in refs + [r];
      }
    }
  }

  /** Emitting one more branch to a label keeps every earlier branch and adds this one. */
  lemma ConsistentBranch(code: seq<u8>, more: seq<u8>, refs: seq<Ref>, labels: seq<Label>, r: Ref)
    requires Consistent(code, refs, labels)
    requires r.at == |code| && |more| == Size(r.form) && Blank(r.form, r.word)
    requires r.id < |labels| && Encoded(code + more, r, labels[r.id].location)
    ensures Consistent(code + more, refs + [r], labels[r.id := Linked(labels[r.id], r.at)])
  {
    ConsistentAppend(code, more, refs, labels);
    var labels' := labels[r.id := Linked(labels[r.id], r.at)];
    hide Encoded, Blank;
    forall id | 0 <= id < |labels'| ensures Pending(refs + [r], id, labels'[id]) {
      PendingLinked(refs, r, id, labels[id]);
    }
    hide Pending;
  }

  lemma FetchAppended(code: seq<u8>, w: nat, n: nat)
    requires w < Capacity(n)
    ensures Fetch(code + Bytes(w, n), |code|, n) == w
  {
    hide Bytes, Fetch;
    assert (code + Bytes(w, n))[|code|..|code| + n] == Bytes(w, n);
    FetchBytes(code + Bytes(w, n), |code|, w, n);
  }

  /** The word that is emitted for a branch encodes the label's location, if it has one. */
  lemma BranchEncoded(code: seq<u8>, r: Ref, offset: int, location: Option<nat>)
    requires r.at == |code| && Blank(r.form, r.word) && InRange(r.form, offset)
    requires offset == if location.Some? then location.value - r.at else 0
    ensures Encoded(code + Bytes(Or(r.word, Transform(r.form, offset)), Size(r.form)), r, location)
  {
    hide Or, Transform, Blank, HasForm, Operands, Immediate, Aligned, InRange, Fetch, Bytes, Capacity;
    OffsetEncoded(r.form, r.word, offset);
    ZeroOffset(r.form, r.word);
    Capacities();
    FetchAppended(code, Or(r.word, Transform(r.form, offset)), Size(r.form));
  }

  /** The two lemmas together: the state after emitting a branch to a label. */
  lemma BranchConsistent(code: seq<u8>, refs: seq<Ref>, labels: seq<Label>, r: Ref, offset: int)
    requires Consistent(code, refs, labels) && r.at == |code| && Blank(r.form, r.word) && r.id < |labels|
    requires var location := labels[r.id].location;
      if location.Some? then offset == location.value - r.at && InRange(r.form, offset) else offset == 0
    ensures var w := Or(r.word, Transform(r.form, offset));
      Consistent(code + Bytes(w, Size(r.form)), refs + [r], labels[r.id := Linked(labels[r.id], r.at)])
  {
    assert InRange(r.form, 0);
    hide Consistent, Or, Transform, Encoded, Blank, InRange, Bytes, Size, Linked;
    BranchEncoded(code, r, offset, labels[r.id].location);
    ConsistentBranch(code, Bytes(Or(r.word, Transform(r.form, offset)), Size(r.form)), refs, labels, r);
  }

  lemma AppendedStore(all: seq<u8>, at: nat, w: nat, n: nat)
    requires at + n <= |all|
    ensures Store(all, at, w, n)[..at + n] == all[..at] + Bytes(w, n)
  {
    hide Bytes;
  }

  // ---------------------------------------------------------------- resolving a label

  /** determine_inst_size: whether the first halfword is a compressed branch or jump. */
  function InstructionSize(half: nat): nat {
    if half % 4 == 1 && (half / 0x2000 >= 6 || half / 0x2000 == 1 || half / 0x2000 == 5) then 2 else 4
  }

  /** The immediate that is or-ed into an instruction of the given size; none if it is no branch. */
  function PatchBits(w: nat, size: nat, offset: int): nat {
    if size == 4 then
      if w % 0x80 == 0x63 then Transform(B, offset) else if w % 0x80 == 0x6F then Transform(J, offset) else 0
    else if w % 4 == 1 && w / 0x2000 >= 6 then Transform(CB, offset)
    else if w % 4 == 1 && (w / 0x2000 == 1 || w / 0x2000 == 5) then Transform(CJ, offset)
    else 0
  }

  lemma WordLow(w: nat)
    ensures w % 0x1_0000 % 4 == w % 4
    ensures w % 0x80 % 4 == w % 4
  {
    Peel(w / 0x1_0000 * 0x4000 + w % 0x1_0000 / 4, 4, w % 0x1_0000 % 4);
    Peel(w / 0x80 * 32 + w % 0x80 / 4, 4, w % 0x80 % 4);
  }

  /** A pending branch is recognised for what it is. */
  lemma Recognised(code: seq<u8>, r: Ref, offset: int)
    requires Encoded(code, r, None) && Blank(r.form, r.word)
    ensures r.at + 2 <= |code| && InstructionSize(Fetch(code, r.at, 2)) == Size(r.form)
    ensures r.at + Size(r.form) <= |code| && Fetch(code, r.at, Size(r.form)) == r.word
    ensures PatchBits(Fetch(code, r.at, Size(r.form)), Size(r.form), offset) == Transform(r.form, offset)
  {
    BlankHasForm(r.form, r.word);
    WordLow(r.word);
    hide Transform, Fetch, Blank;
    if Size(r.form) == 4 {
      FetchLow(code, r.at);
    }
  }

  /** What the code should hold for a branch while label `id` is being resolved. */
  function Settled(labels: seq<Label>, id: nat, location: nat, todo: set<nat>, s: Ref): Option<nat>
    requires s.id < |labels|
  {
    if s.id != id then labels[s.id].location else if s.at in todo then None else Some(location)
  }

  /** While the branches to label `id` are being patched: those in `todo` are still blank. */
  ghost predicate Resolving(code: seq<u8>, refs: seq<Ref>, labels: seq<Label>, id: nat, location: nat, todo: set<nat>) {
    forall r <- refs :: r.id < |labels| && Encoded(code, r, Settled(labels, id, location, todo, r))
  }

  lemma RefsApart(refs: seq<Ref>, cursor: nat, r: Ref, s: Ref)
    requires Placed(refs, cursor) && r in refs && s in refs
    ensures r == s || r.at + Size(r.form) <= s.at || s.at + Size(s.form) <= r.at
  {
  }

  lemma PatchedEncoded(code: seq<u8>, r: Ref, location: nat)
    requires r.at + Size(r.form) <= |code| && Blank(r.form, r.word) && InRange(r.form, location - r.at)
    ensures Encoded(Store(code, r.at, Or(r.word, Transform(r.form, location - r.at)), Size(r.form)), r, Some(location))
  {
    hide Or, Transform, Blank, HasForm, Operands, Immediate, Aligned, InRange, Fetch, Store, Capacity;
    OffsetEncoded(r.form, r.word, location - r.at);
    Capacities();
    FetchStored(code, r.at, Or(r.word, Transform(r.form, location - r.at)), Size(r.form));
  }

  lemma StoreElsewhere(code: seq<u8>, at: nat, w: nat, n: nat, s: Ref, location: Option<nat>)
    requires at + n <= |code| && Encoded(code, s, location) && (at + n <= s.at || s.at + Size(s.form) <= at)
    ensures Encoded(Store(code, at, w, n), s, location)
  {
    EncodedSize(code, s, location);
    hide Encoded, Bytes;
    EncodedDepends(code, Store(code, at, w, n), s, location);
  }

  lemma EncodedSize(code: seq<u8>, s: Ref, location: Option<nat>)
    requires Encoded(code, s, location)
    ensures s.at + Size(s.form) <= |code|
  {
    hide Fetch;
  }

  /** Patching one branch changes no other. */
  lemma PatchStep(code: seq<u8>, refs: seq<Ref>, labels: seq<Label>, id: nat, location: nat, todo: set<nat>, r: Ref)
    requires Placed(refs, |code|) && Resolving(code, refs, labels, id, location, todo)
    requires r in refs && r.id == id && r.at in todo && InRange(r.form, location - r.at)
    ensures var code' := Store(code, r.at, Or(r.word, Transform(r.form, location - r.at)), Size(r.form));
      Resolving(code', refs, labels, id, location, todo - {r.at})
  {
    hide Or, Transform, Encoded, Blank, InRange, Store;
    var w := Or(r.word, Transform(r.form, location - r.at));
    var code' := Store(code, r.at, w, Size(r.form));
    PatchedEncoded(code, r, location);
    forall s | s in refs && s != r
      ensures s.at != r.at && s.id < |labels| && Encoded(code', s, Settled(labels, id, location, todo, s))
    {
      RefsApart(refs, |code|, r, s);
      StoreElsewhere(code, r.at, w, Size(r.form), s, Settled(labels, id, location, todo, s));
    }
  }

  /** Every pending offset of the label is a branch to it that its location is in range of. */
  ghost predicate Awaits(refs: seq<Ref>, id: nat, lbl: Label)
    requires lbl.location.Some?
  {
    forall o <- lbl.offsets :: exists r ::
      r in refs && r.at == o && r.id == id && InRange(r.form, lbl.location.value - r.at)
  }

  /** Setting the location of a consistent label starts its resolution, with everything still to do. */
  lemma BindStarts(code: seq<u8>, refs: seq<Ref>, labels: seq<Label>, id: nat, location: nat)
    requires Consistent(code, refs, labels) && id < |labels| && labels[id].location.None?
    requires forall r <- refs :: r.id == id ==> InRange(r.form, location - r.at)
    ensures var lbl := labels[id].(location := Some(location));
      Awaits(refs, id, lbl) && Resolving(code, refs, labels[id := lbl], id, location, lbl.offsets)
  {
    hide InRange, Encoded, Blank;
    forall o | o in labels[id].offsets
      ensures exists r :: r in refs && r.at == o && r.id == id && InRange(r.form, location - r.at)
    {
      var r :| r in refs && r.at == o && r.id == id;
      assert InRange(r.form, location - r.at);
    }
  }

  /** Outside the branches to label `id`, the code is as it was. */
  ghost predicate Untouched(before: seq<u8>, code: seq<u8>, refs: seq<Ref>, id: nat) {
    && |before| == |code|
    && forall k :: 0 <= k < |code| && (forall r <- refs :: r.id == id ==> !(r.at <= k < r.at + Size(r.form))) ==>
         code[k] == before[k]
  }

  lemma UntouchedStep(before: seq<u8>, code: seq<u8>, refs: seq<Ref>, id: nat, r: Ref, w: nat)
    requires Untouched(before, code, refs, id)
    requires r in refs && r.id == id && r.at + Size(r.form) <= |code|
    ensures Untouched(before, Store(code, r.at, w, Size(r.form)), refs, id)
  {
    hide Bytes;
  }

  /** A pending offset names a branch that can be patched, with what patching it achieves. */
  lemma NextPending(before: seq<u8>, code: seq<u8>, refs: seq<Ref>, labels: seq<Label>, id: nat, location: nat,
                    todo: set<nat>, at: nat)
    returns (r: Ref)
    requires Placed(refs, |code|) && at in todo
    requires exists r :: r in refs && r.at == at && r.id == id && InRange(r.form, location - r.at)
    requires Resolving(code, refs, labels, id, location, todo) && Untouched(before, code, refs, id)
    ensures r.at == at && Blank(r.form, r.word) && Encoded(code, r, None) && at + Size(r.form) <= |code|
    ensures var code' := Store(code, at, Or(r.word, Transform(r.form, location - at)), Size(r.form));
      Resolving(code', refs, labels, id, location, todo - {at}) && Untouched(before, code', refs, id)
  {
    hide InRange, Blank, Encoded, Or, Transform, Store, Size, Resolving, Untouched, Placed;
    r :| r in refs && r.at == at && r.id == id && InRange(r.form, location - r.at);
    StillBlank(code, refs, labels, id, location, todo, r);
    PatchStep(code, refs, labels, id, location, todo, r);
    UntouchedStep(before, code, refs, id, r, Or(r.word, Transform(r.form, location - at)));
  }

  lemma StillBlank(code: seq<u8>, refs: seq<Ref>, labels: seq<Label>, id: nat, location: nat, todo: set<nat>, r: Ref)
    requires Placed(refs, |code|) && Resolving(code, refs, labels, id, location, todo)
    requires r in refs && r.id == id && r.at in todo
    ensures Encoded(code, r, None) && Blank(r.form, r.word) && r.at + Size(r.form) <= |code|
  {
    hide Encoded, Blank, Size;
  }

  /** When nothing is left to patch, the label can be marked bound. */
  lemma ResolvedConsistent(code: seq<u8>, refs: seq<Ref>, labels: seq<Label>, id: nat, lbl: Label, location: nat)
    requires id < |labels| && Placed(refs, |code|)
    requires Resolving(code, refs, labels[id := lbl], id, location, {})
    requires forall i :: 0 <= i < |labels| ==> Pending(refs, i, labels[i])
    ensures Consistent(code, refs, labels[id := Label(Some(location), {})])
  {
    hide Encoded, Placed;
  }

  // ---------------------------------------------------------------- bytes of a program

  function WordBytes(ws: seq<u32>): (b: seq<u8>)
    ensures |b| == 4 * |ws|
  {
    if ws == [] then [] else Bytes(ws[0], 4) + WordBytes(ws[1..])
  }

  lemma {:induction false} WordsConcat(a: seq<u32>, b: seq<u32>)
    ensures WordBytes(a + b) == WordBytes(a) + WordBytes(b)
  {
    if a == [] {
      assert a + b == b;
    } else {
      assert (a + b)[1..] == a[1..] + b;
      hide Bytes;
      WordsConcat(a[1..], b);
    }
  }

  /** The n words that a processor fetches from a position on. */
  function Program(code: seq<u8>, at: nat, n: nat): (ws: seq<u32>)
    requires at + 4 * n <= |code|
    ensures |ws| == n
    decreases n
  {
    if n == 0 then [] else
    FetchBound(code, at, 4);
    Capacities();
    [Fetch(code, at, 4)] + Program(code, at + 4, n - 1)
  }

  /** Round trip: the words emitted at the end of the code are fetched from there. */
  lemma {:induction false} ProgramEmitted(code: seq<u8>, ws: seq<u32>)
    ensures Program(code + WordBytes(ws), |code|, |ws|) == ws
    decreases |ws|
  {
    hide Fetch, Bytes, Capacity;
    if ws != [] {
      var first, rest := Bytes(ws[0], 4), WordBytes(ws[1..]);
      var all := code + WordBytes(ws);
      assert all == code + first + rest;
      assert all[|code|..|code| + 4] == first;
      Capacities();
      FetchBytes(all, |code|, ws[0], 4);
      ProgramEmitted(code + first, ws[1..]);
      assert ws == [ws[0]] + ws[1..];
    }
  }

  /** The bytes that LI leaves in the buffer load the constant when they are fetched and executed. */
  lemma EmittedLi(x: Xlen, code: seq<u8>, rd: Reg, imm: u64, h: Hart)
    requires h.Running? && WellFormed(x, h)
    ensures var ws := LiWords(x, rd, imm);
      LoadsConstant(x, rd, imm, h, Run(x, Program(code + WordBytes(ws), |code|, |ws|), h))
  {
    hide LiWords, WordBytes, Program, LoadsConstant, Run, WellFormed;
    ProgramEmitted(code, LiWords(x, rd, imm));
    LiCorrect(x, rd, imm, h);
  }

  /** The bytes that CALL leaves in the buffer call the target, under the same condition as the words. */
  lemma EmittedCall(x: Xlen, code: seq<u8>, offset: i32, h: Hart)
    requires h.Running? && WellFormed(x, h)
    ensures var ws := CallWords(offset);
      Calls(x, offset, h, Run(x, Program(code + WordBytes(ws), |code|, |ws|), h))
  {
    hide CallWords, WordBytes, Program, Calls, Run, WellFormed;
    ProgramEmitted(code, CallWords(offset));
    CallTarget(x, offset, h);
  }

  lemma WordsOne(code: seq<u8>, a: seq<u32>, w: u32)
    ensures code + WordBytes(a) + Bytes(w, 4) == code + WordBytes(a + [w])
  {
    hide Bytes;
    WordsConcat(a, [w]);
    assert [w][1..] == [];
    assert WordBytes([w]) == Bytes(w, 4) + [];
  }

  // ---------------------------------------------------------------- the assembler

  class Assembler {
    const xlen: Xlen
    const buffer: array<u8>
    var cursor: nat
    var labels: seq<Label>
    /** Every branch to a label emitted so far. */
    ghost var refs: seq<Ref>

    constructor (xlen: Xlen, capacity: nat)
      ensures Valid() && cursor == 0 && labels == [] && refs == []
      ensures this.xlen == xlen && buffer.Length == capacity && fresh(buffer)
    {
      this.xlen := xlen;
      buffer := new u8[capacity](i => 0);
      cursor, labels, refs := 0, [], [];
    }

    ghost function Code(): seq<u8>
      reads this, buffer
      requires cursor <= buffer.Length
    {
      buffer[..cursor]
    }

    ghost predicate Valid()
      reads this, buffer
    {
      cursor <= buffer.Length && Consistent(Code(), refs, labels)
    }

    /** memcpy of n bytes into the buffer. */
    method Put(at: nat, w: nat, n: nat)
      requires at + n <= buffer.Length
      modifies buffer
      ensures buffer[..] == old(Store(buffer[..], at, w, n))
    {
      var bytes := Bytes(w, n);
      ghost var before := buffer[..];
      for i := 0 to n
        invariant forall k :: 0 <= k < buffer.Length ==>
          buffer[k] == if at <= k < at + i then bytes[k - at] else before[k]
      {
        buffer[at + i] := bytes[i];
      }
      hide Bytes;
      assert buffer[..] == Store(before, at, w, n);
    }

    /** Reads n bytes of the buffer as a little-endian number. */
    method Get(at: nat, n: nat) returns (w: nat)
      requires at + n <= cursor <= buffer.Length
      ensures w == Fetch(Code(), at, n)
    {
      w := 0;
      var i := n;
      while i > 0
        invariant 0 <= i <= n
        invariant w == Fetch(Code(), at + i, n - i)
      {
        i := i - 1;
        w := buffer[at + i] + 0x100 * w;
      }
    }

    method NewLabel() returns (id: nat)
      requires Valid()
      modifies this`labels
      ensures Valid() && id == old(|labels|) && labels == old(labels) + [Label(None, {})]
    {
      id := |labels|;
      hide Encoded, Placed;
      labels := labels + [Label(None, {})];
    }

    /** Emit16 and Emit32: appends n bytes; every branch emitted so far keeps its encoding. */
    method Emit(w: nat, n: nat)
      requires Valid() && cursor + n <= buffer.Length
      modifies this`cursor, buffer
      ensures Valid() && cursor == old(cursor) + n
      ensures Code() == old(Code()) + Bytes(w, n)
    {
      hide Consistent, Bytes, Store;
      ConsistentAppend(Code(), Bytes(w, n), refs, labels);
      AppendedStore(buffer[..], cursor, w, n);
      Put(cursor, w, n);
      cursor := cursor + n;
    }

    /** A branch to a label: LinkAndGetOffset, then the emitter of the instruction. An unbound label
        records the position and offset zero is encoded; a bound one is encoded at once. */
    method Branch(form: Form, word: u32, id: nat)
      requires Valid() && id < |labels| && Blank(form, word)
      requires cursor + Size(form) <= buffer.Length
      requires labels[id].location.Some? ==> InRange(form, labels[id].location.value - cursor)
      modifies this`cursor, this`refs, this`labels, buffer
      ensures Valid() && cursor == old(cursor) + Size(form) && old(Code()) <= Code()
      ensures refs == old(refs) + [Ref(old(cursor), form, word, id)]
      ensures labels == old(labels[id := Linked(labels[id], cursor)])
    {
      hide Consistent, Or, Transform, Blank, InRange, Bytes, Size, Linked, Store;
      var offset := 0;
      if labels[id].location.Some? {
        offset := labels[id].location.value - cursor;
      }
      ghost var r, before := Ref(cursor, form, word, id), Code();
      var w := Or(word, Transform(form, offset));
      BranchConsistent(before, refs, labels, r, offset);
      Put(cursor, w, Size(form));
      AppendedStore(old(buffer[..]), cursor, w, Size(form));
      labels := labels[id := Linked(labels[id], cursor)];
      cursor := cursor + Size(form);
      refs := refs + [r];
    }

    /** One round of ResolveLabelOffsets: reads the instruction, ors the offset in, writes it back. */
    method Patch(at: nat, location: nat, ghost r: Ref)
      requires cursor <= buffer.Length && r.at == at && Blank(r.form, r.word) && Encoded(Code(), r, None)
      modifies buffer
      ensures Code() == old(Store(Code(), at, Or(r.word, Transform(r.form, location - at)), Size(r.form)))
    {
      hide InstructionSize, PatchBits, Or, Transform, Fetch, Bytes, Blank, Encoded, Size;
      ghost var before := Code();
      Recognised(before, r, location - at);
      var half := Get(at, 2);
      var size := InstructionSize(half);
      var instruction := Get(at, size);
      Put(at, Or(instruction, PatchBits(instruction, size, location - at)), size);
      assert Code() == Store(before, at, Or(r.word, Transform(r.form, location - at)), Size(r.form));
    }

    method ResolveOne(id: nat, location: nat, at: nat, ghost before: seq<u8>, ghost todo: set<nat>)
      requires cursor <= buffer.Length && Placed(refs, cursor)
      requires exists r :: r in refs && r.at == at && r.id == id && InRange(r.form, location - r.at)
      requires at in todo && Resolving(Code(), refs, labels, id, location, todo) && Untouched(before, Code(), refs, id)
      modifies buffer
      ensures Resolving(Code(), refs, labels, id, location, todo - {at}) && Untouched(before, Code(), refs, id)
    {
      hide InRange, Blank, Encoded, Or, Transform, Resolving, Untouched, Store, Placed, Size;
      ghost var r := NextPending(before, Code(), refs, labels, id, location, todo, at);
      Patch(at, location, r);
    }

    /** ResolveLabelOffsets: patches every branch that waits for a label which has just been bound. */
    method ResolveLabelOffsets(id: nat)
      requires cursor <= buffer.Length && Placed(refs, cursor) && id < |labels| && labels[id].location.Some?
      requires Awaits(refs, id, labels[id])
      requires Resolving(Code(), refs, labels, id, labels[id].location.value, labels[id].offsets)
      modifies buffer
      ensures Resolving(Code(), refs, labels, id, labels[id].location.value, {})
      ensures Untouched(old(Code()), Code(), refs, id)
    {
      var location, todo := labels[id].location.value, labels[id].offsets;
      ghost var before := Code();
      while todo != {}
        invariant todo <= labels[id].offsets
        invariant Resolving(Code(), refs, labels, id, location, todo)
        invariant Untouched(before, Code(), refs, id)
        decreases todo
      {
        var at :| at in todo;
        ResolveOne(id, location, at, before, todo);
        todo := todo - {at};
      }
    }

    /** BindToOffset: binds a label and patches every branch that waits for it. Each such offset must
        be in range, as ResolveLabelOffsets asserts. Bytes outside those branches are untouched. */
    method BindToOffset(id: nat, location: nat)
      requires Valid() && id < |labels| && labels[id].location.None? && location <= cursor
      requires forall r <- refs :: r.id == id ==> InRange(r.form, location - r.at)
      modifies this`labels, buffer
      ensures Valid() && labels == old(labels)[id := Label(Some(location), {})]
      ensures Untouched(old(Code()), Code(), refs, id)
    {
      ghost var unbound := labels;
      BindStarts(Code(), refs, labels, id, location);
      hide InRange, Blank, Encoded, Placed, Untouched;
      labels := labels[id := labels[id].(location := Some(location))];
      ResolveLabelOffsets(id);
      ghost var resolved := labels[id];
      assert labels == unbound[id := resolved];
      labels := labels[id := labels[id].(offsets := {})];
      ResolvedConsistent(Code(), refs, unbound, id, resolved, location);
    }

    /** Emits one instruction. */
    method Emit32(i: Instr, ghost soFar: seq<u32>, ghost start: seq<u8>)
      requires Valid() && cursor + 4 <= buffer.Length && Emittable(i)
      requires Code() == start + WordBytes(soFar)
      modifies this`cursor, buffer
      ensures Valid() && cursor == old(cursor) + 4
      ensures Code() == start + WordBytes(soFar + [Encode(i)])
    {
      hide Consistent, Encode, Bytes, WordBytes;
      Emit(Encode(i), 4);
      WordsOne(start, soFar, Encode(i));
    }

    /** LI: recursion emits the upper part first, then shifts and adds the low 12 bits. */
    method LI(rd: Reg, imm: u64)
      requires Valid() && cursor + 4 * |LiWords(xlen, rd, imm)| <= buffer.Length
      modifies this`cursor, buffer
      ensures Valid() && Code() == old(Code()) + WordBytes(LiWords(xlen, rd, imm))
      decreases Magnitude(imm)
    {
      ghost var start := Code();
      assert start == start + WordBytes([]);
      hide Consistent, Encode, WordBytes, HiPart, LoPart, Fits32, UpperPart, ShiftAmount, SignExtend12, Magnitude;
      if xlen == RV32 || Fits32(imm) {
        SmallWords(xlen, rd, imm);
        var hi20, lo12 := HiPart(imm), LoPart(imm);
        var rs1: Reg := 0;
        ghost var done := [];
        if hi20 != 0 {
          Emit32(Lui(rd, hi20), done, start);
          done := done + [Encode(Lui(rd, hi20))];
          rs1 := rd;
        }
        if lo12 != 0 || hi20 == 0 {
          Emit32(AddLow(xlen, rd, rs1, lo12), done, start);
        }
      } else {
        UpperPartShrinks(imm);
        LargeWords(xlen, rd, imm);
        var lo12, shift := SignExtend12(imm), ShiftAmount(imm);
        ghost var done := LiWords(xlen, rd, UpperPart(imm));
        LI(rd, UpperPart(imm));
        Emit32(Slli(rd, rd, shift), done, start);
        if lo12 != 0 {
          Emit32(Addi(rd, rd, lo12), done + [Encode(Slli(rd, rd, shift))], start);
        }
      }
    }

    /** CALL: AUIPC and JALR through x1. */
    method CALL(offset: i32)
      requires Valid() && cursor + 8 <= buffer.Length
      modifies this`cursor, buffer
      ensures Valid() && Code() == old(Code()) + WordBytes(CallWords(offset))
    {
      ghost var start := Code();
      assert start == start + WordBytes([]);
      hide Consistent, Encode, WordBytes, CallUpper, CallLower;
      var auipc, jalr := Auipc(1, CallUpper(offset)), Jalr(1, 1, CallLower(offset));
      Emit32(auipc, [], start);
      Emit32(jalr, [Encode(auipc)], start);
      assert CallWords(offset) == [Encode(auipc)] + [Encode(jalr)];
    }
  }

  lemma EncodeConcat(a: seq<Instr>, b: seq<Instr>)
    requires (forall i <- a :: Emittable(i)) && forall i <- b :: Emittable(i)
    ensures EncodeAll(a + b) == EncodeAll(a) + EncodeAll(b)
  {
  }

  /** The words of a constant that takes no recursion, as LI emits them. */
  lemma SmallWords(x: Xlen, rd: Reg, imm: u64)
    requires x == RV32 || Fits32(imm)
    ensures var hi, lo := HiPart(imm), LoPart(imm);
      var add := Encode(AddLow(x, rd, if hi != 0 then rd else 0, lo));
      LiWords(x, rd, imm) ==
        if hi == 0 then [add] else if lo == 0 then [Encode(Lui(rd, hi))] else [Encode(Lui(rd, hi)), add]
  {
    hide Encode, HiPart, LoPart;
  }

  /** The words of a constant that takes a recursive step. */
  lemma LargeWords(x: Xlen, rd: Reg, imm: u64)
    requires !(x == RV32 || Fits32(imm))
    ensures ShiftAmount(imm) < 64
    ensures var upper := LiWords(x, rd, UpperPart(imm)) + [Encode(Slli(rd, rd, ShiftAmount(imm)))];
      var lo := SignExtend12(imm);
      LiWords(x, rd, imm) == if lo == 0 then upper else upper + [Encode(Addi(rd, rd, lo))]
  {
    UpperPartShrinks(imm);
    ShiftInRange(imm);
    LiEmittable(x, rd, UpperPart(imm));
    hide Encode, SignExtend12, ShiftAmount, UpperPart;
    var lo := SignExtend12(imm);
    var rest := [Slli(rd, rd, ShiftAmount(imm))] + if lo != 0 then [Addi(rd, rd, lo)] else [];
    assert LiCode(x, rd, imm) == LiCode(x, rd, UpperPart(imm)) + rest;
    EncodeConcat(LiCode(x, rd, UpperPart(imm)), rest);
  }
}
