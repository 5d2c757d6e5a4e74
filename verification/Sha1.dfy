/** The streaming SHA-1 of libc.c. */
module Sha1 {
  import opened Sha1Spec
  import opened Words

  // ---------------------------------------------------------------- the round macros

  /** A word of the union, read on a little-endian host. */
  function LittleEndian(b: seq<Byte>, at: nat): Word
    requires at + 4 <= |b|
  {
    Join(b[at + 3], b[at + 2], b[at + 1], b[at])
  }

  /** blk0: the byte swap. */
  function Swap(w: Word): Word {
    (Rotl(w, 24) & 0xFF00FF00) | (Rotl(w, 8) & 0x00FF00FF)
  }

  lemma SwapBytes(a: Byte, b: Byte, c: Byte, d: Byte)
    ensures Swap(Join(d, c, b, a)) == Join(a, b, c, d)
  {
  }

  /** The boolean functions as the macros R0 to R4 write them. */
  function Select(w: Word, x: Word, y: Word): Word { (w & (x ^ y)) ^ y }
  function Vote(w: Word, x: Word, y: Word): Word { ((w | x) & y) | (w & x) }

  function Mix(t: nat, w: Word, x: Word, y: Word): Word {
    if t < 20 then Select(w, x, y) else if 40 <= t < 60 then Vote(w, x, y) else w ^ x ^ y
  }

  lemma SelectBits(w: Word, x: Word, y: Word)
    ensures (w & (x ^ y)) ^ y == (w & x) ^ (!w & y)
  {
  }

  lemma VoteBits(w: Word, x: Word, y: Word)
    ensures ((w | x) & y) | (w & x) == (w & x) ^ (w & y) ^ (x & y)
  {
  }

  lemma SelectIsCh(w: Word, x: Word, y: Word)
    ensures Select(w, x, y) == Ch(w, x, y)
  {
    SelectBits(w, x, y);
  }

  lemma VoteIsMaj(w: Word, x: Word, y: Word)
    ensures Vote(w, x, y) == Maj(w, x, y)
  {
    VoteBits(w, x, y);
  }

  lemma MixIsF(t: nat, w: Word, x: Word, y: Word)
    ensures Mix(t, w, x, y) == F(t, w, x, y)
  {
    hide Select, Ch, Vote, Maj;
    SelectIsCh(w, x, y);
    VoteIsMaj(w, x, y);
  }

  lemma AddCommutes(a: Word, f: Word, e: Word, k: Word, w: Word)
    ensures e + (f + w + k + a) == a + f + e + k + w
  {
  }

  /** z += f + blk + K + rol(v, 5). */
  function AddTo(z: Word, f: Word, word: Word, k: Word, r: Word): Word {
    z + (f + word + k + r)
  }

  lemma AddToIsSum(z: Word, f: Word, word: Word, k: Word, r: Word)
    ensures AddTo(z, f, word, k, r) == Sum(r, f, z, k, word)
  {
    AddCommutes(r, f, z, k, word);
  }

  /** Instead of shifting the registers, the macros rename them. */
  lemma RenamedRound(v: Word, w: Word, x: Word, y: Word, z: Word, i: nat, word: Word)
    ensures Registers(AddTo(z, Mix(i, w, x, y), word, K(i), Rotl(v, 5)), v, Rotl(w, 30), x, y)
      == Round(Registers(v, w, x, y, z), i, word)
  {
    hide AddTo, Sum, Mix, F, K, Rotl;
    MixIsF(i, w, x, y);
    AddToIsSum(z, Mix(i, w, x, y), word, K(i), Rotl(v, 5));
  }

  // ---------------------------------------------------------------- the in-place message schedule

  /** Before round i the sixteen words hold the last sixteen schedule words, each at its index modulo
      sixteen; until round 16, the words not reached yet are still as they lie in memory. */
  ghost predicate Schedule(l: seq<Word>, m: seq<Byte>, i: nat) {
    && |l| == 16 && |m| == 64
    && (forall t :: 0 <= t < i <= t + 16 ==> l[t % 16] == W(m, t))
    && (forall j :: i <= j < 16 ==> l[j] == LittleEndian(m, 4 * j))
  }

  /** blk0 and blk: the word of round i from the words in memory. */
  function Blk(l: seq<Word>, i: nat): Word
    requires |l| == 16
  {
    if i < 16 then Swap(l[i]) else Rotl(l[(i + 13) % 16] ^ l[(i + 8) % 16] ^ l[(i + 2) % 16] ^ l[i % 16], 1)
  }

  lemma SwapWord(m: seq<Byte>, j: nat)
    requires |m| == 64 && j < 16
    ensures Swap(LittleEndian(m, 4 * j)) == W(m, j)
  {
    hide Swap, Join;
    SwapBytes(m[4 * j], m[4 * j + 1], m[4 * j + 2], m[4 * j + 3]);
  }

  lemma BlkIsW(l: seq<Word>, m: seq<Byte>, i: nat)
    requires Schedule(l, m, i)
    ensures Blk(l, i) == W(m, i)
  {
    hide Swap, Rotl, LittleEndian, BigEndian;
    if i < 16 {
      SwapWord(m, i);
    } else {
      assert l[(i - 3) % 16] == W(m, i - 3) && (i - 3) % 16 == (i + 13) % 16;
      assert l[(i - 8) % 16] == W(m, i - 8) && (i - 8) % 16 == (i + 8) % 16;
      assert l[(i - 14) % 16] == W(m, i - 14) && (i - 14) % 16 == (i + 2) % 16;
      assert l[(i - 16) % 16] == W(m, i - 16) && (i - 16) % 16 == i % 16;
    }
  }

  lemma DistinctSlots(t: nat, i: nat)
    requires t < i < t + 16
    ensures t % 16 != i % 16
  {
  }

  /** Section 6.1.3 refines section 6.1.2: overwriting the oldest word keeps the schedule. */
  lemma ScheduleStep(l: seq<Word>, m: seq<Byte>, i: nat)
    requires Schedule(l, m, i)
    ensures Schedule(l[i % 16 := Blk(l, i)], m, i + 1)
  {
    BlkIsW(l, m, i);
    hide Blk, W, LittleEndian;
    var l' := l[i % 16 := Blk(l, i)];
    forall t | 0 <= t < i + 1 <= t + 16 ensures l'[t % 16] == W(m, t) {
      if t < i {
        DistinctSlots(t, i);
      }
    }
  }

  /** One use of the macros R0 to R4. */
  method Step(v: Word, w: Word, x: Word, y: Word, z: Word, i: nat, block: array<Word>,
              ghost m: seq<Byte>, ghost h: Registers)
    returns (w': Word, z': Word)
    requires block.Length == 16 && Schedule(block[..], m, i) && Registers(v, w, x, y, z) == Rounds(m, h, i)
    modifies block
    ensures Schedule(block[..], m, i + 1) && Registers(z', v, w', x, y) == Rounds(m, h, i + 1)
  {
    hide Schedule, Blk, W, Rotl, AddTo, Mix, K, Round;
    BlkIsW(block[..], m, i);
    ScheduleStep(block[..], m, i);
    var word := Blk(block[..], i);
    block[i % 16] := word;
    z' := AddTo(z, Mix(i, w, x, y), word, K(i), Rotl(v, 5));
    w' := Rotl(w, 30);
    RenamedRound(v, w, x, y, z, i, word);
    assert block[..] == old(block[..])[i % 16 := word];
  }

  // ---------------------------------------------------------------- SHA1Transform

  function Hash(state: seq<Word>): Registers
    requires |state| == 5
  {
    Registers(state[0], state[1], state[2], state[3], state[4])
  }

  /** memcpy of a block into the union. */
  method LoadBlock(m: seq<Byte>) returns (block: array<Word>)
    requires |m| == 64
    ensures fresh(block) && block.Length == 16 && Schedule(block[..], m, 0)
  {
    block := new Word[16](_ => 0);
    for j := 0 to 16
      invariant forall k :: 0 <= k < j ==> block[k] == LittleEndian(m, 4 * k)
    {
      block[j] := LittleEndian(m, 4 * j);
    }
  }

  /** SHA1Transform: the compression function of section 6.1.2. */
  method Transform(state: array<Word>, m: seq<Byte>)
    requires state.Length == 5 && |m| == 64
    modifies state
    ensures Hash(state[..]) == Compress(old(Hash(state[..])), m)
  {
    hide Schedule, Rounds, Compress, AddHash;
    ghost var h := Hash(state[..]);
    var block := LoadBlock(m);
    var a, b, c, d, e := AllRounds(state[0], state[1], state[2], state[3], state[4], block, m);
    AddState(state, a, b, c, d, e);
    CompressIs(h, m, Registers(a, b, c, d, e));
  }

  /** The eighty rounds, five to a full turn of the register names. */
  method AllRounds(a0: Word, b0: Word, c0: Word, d0: Word, e0: Word, block: array<Word>, ghost m: seq<Byte>)
    returns (a: Word, b: Word, c: Word, d: Word, e: Word)
    requires block.Length == 16 && Schedule(block[..], m, 0)
    modifies block
    ensures |m| == 64 && Registers(a, b, c, d, e) == Rounds(m, Registers(a0, b0, c0, d0, e0), 80)
  {
    ghost var h := Registers(a0, b0, c0, d0, e0);
    assert |m| == 64 && Rounds(m, h, 0) == h;
    hide Schedule, Rounds;
    a, b, c, d, e := a0, b0, c0, d0, e0;
    for g := 0 to 16
      invariant Schedule(block[..], m, 5 * g) && Registers(a, b, c, d, e) == Rounds(m, h, 5 * g)
    {
      a, b, c, d, e := FiveRounds(a, b, c, d, e, 5 * g, block, m, h);
    }
  }

  /** Five consecutive uses of the macros: each renames the registers by one, the fifth restores the names. */
  method FiveRounds(a0: Word, b0: Word, c0: Word, d0: Word, e0: Word, i: nat, block: array<Word>,
                    ghost m: seq<Byte>, ghost h: Registers)
    returns (a: Word, b: Word, c: Word, d: Word, e: Word)
    requires block.Length == 16 && Schedule(block[..], m, i) && Registers(a0, b0, c0, d0, e0) == Rounds(m, h, i)
    modifies block
    ensures Schedule(block[..], m, i + 5) && Registers(a, b, c, d, e) == Rounds(m, h, i + 5)
  {
    hide Schedule, Rounds;
    a, b, c, d, e := a0, b0, c0, d0, e0;
    b, e := Step(a, b, c, d, e, i, block, m, h);
    a, d := Step(e, a, b, c, d, i + 1, block, m, h);
    e, c := Step(d, e, a, b, c, i + 2, block, m, h);
    d, b := Step(c, d, e, a, b, i + 3, block, m, h);
    c, a := Step(b, c, d, e, a, i + 4, block, m, h);
  }

  method AddState(state: array<Word>, a: Word, b: Word, c: Word, d: Word, e: Word)
    requires state.Length == 5
    modifies state
    ensures Hash(state[..]) == AddHash(old(Hash(state[..])), Registers(a, b, c, d, e))
  {
    hide Plus;
    state[0] := Plus(state[0], a);
    state[1] := Plus(state[1], b);
    state[2] := Plus(state[2], c);
    state[3] := Plus(state[3], d);
    state[4] := Plus(state[4], e);
  }

  lemma CompressIs(h: Registers, m: seq<Byte>, r: Registers)
    requires |m| == 64 && r == Rounds(m, h, 80)
    ensures Compress(h, m) == AddHash(h, r)
  {
    hide Rounds, AddHash;
  }

  // ---------------------------------------------------------------- blocks of a message

  lemma {:induction false} HashConcat(h: Registers, a: seq<Byte>, b: seq<Byte>)
    requires |a| % 64 == 0
    ensures HashBlocks(h, a + b) == HashBlocks(HashBlocks(h, a), b)
    decreases |a|
  {
    hide Compress;
    if |a| < 64 {
      assert a + b == b;
    } else {
      assert (a + b)[..64] == a[..64] && (a + b)[64..] == a[64..] + b;
      HashConcat(Compress(h, a[..64]), a[64..], b);
    }
  }

  /** One more block after whole blocks is one more compression. */
  lemma HashOneMore(a: seq<Byte>, block: seq<Byte>)
    requires |a| % 64 == 0 && |block| == 64
    ensures HashBlocks(H0, a + block) == Compress(HashBlocks(H0, a), block)
  {
    HashConcat(H0, a, block);
    hide Compress;
    assert block[..64] == block && block[64..] == [];
    assert HashBlocks(HashBlocks(H0, a), block) == HashBlocks(Compress(HashBlocks(H0, a), block), []);
  }

  /** A tail shorter than a block does not count. */
  lemma HashTail(a: seq<Byte>, tail: seq<Byte>)
    requires |a| % 64 == 0 && |tail| < 64
    ensures HashBlocks(H0, a + tail) == HashBlocks(H0, a)
  {
    HashConcat(H0, a, tail);
  }

  /** The bytes after the last complete block. */
  function Tail(m: seq<Byte>): (t: seq<Byte>)
    ensures |t| == |m| % 64
  {
    m[|m| - |m| % 64..]
  }

  lemma RemainderAfterBlocks(n: nat, t: nat)
    requires n % 64 == 0 && t < 64
    ensures (n + t) % 64 == t
  {
  }

  lemma TailOf(a: seq<Byte>, t: seq<Byte>)
    requires |a| % 64 == 0 && |t| < 64
    ensures Tail(a + t) == t
  {
    RemainderAfterBlocks(|a|, |t|);
  }

  lemma SplitTail(m: seq<Byte>) returns (a: seq<Byte>)
    ensures m == a + Tail(m) && |a| % 64 == 0
  {
    a := m[..|m| - |m| % 64];
  }

  // ---------------------------------------------------------------- the bit counter

  /** The carry of the two-word counter: (count[0] += len << 3) < j. */
  function Count0(c0: u32, len: u32): u32 {
    (c0 + len * 8 % TWO32) % TWO32
  }

  function Count1(c0: u32, c1: u32, len: u32): u32 {
    ((if Count0(c0, len) < c0 then (c1 + 1) % TWO32 else c1) + len / 0x2000_0000) % TWO32
  }

  lemma LengthSplits(len: u32)
    ensures 8 * len == len / 0x2000_0000 * TWO32 + len * 8 % TWO32
  {
  }

  lemma CountLow(c0: u32, len: u32) returns (carry: int)
    ensures carry == 0 || carry == 1
    ensures Count0(c0, len) == c0 + len * 8 % TWO32 - carry * TWO32 && (Count0(c0, len) < c0 <==> carry == 1)
  {
    carry := if c0 + len * 8 % TWO32 >= TWO32 then 1 else 0;
  }

  lemma CountHigh(c1: u32, carry: int, hi: int)
    requires carry == 0 || carry == 1
    ensures ((if carry == 1 then (c1 + 1) % TWO32 else c1) + hi) % TWO32
      == c1 + carry + hi - (c1 + carry + hi) / TWO32 * TWO32
  {
  }

  lemma CountCarries(c0: u32, c1: u32, len: u32)
    ensures (Count1(c0, c1, len) * TWO32 + Count0(c0, len)) % TWO64 == (c1 * TWO32 + c0 + 8 * len) % TWO64
  {
    hide Count0;
    var hi := len / 0x2000_0000;
    LengthSplits(len);
    var carry := CountLow(c0, len);
    CountHigh(c1, carry, hi);
    hide Count1;
    AddMultiple(c1 * TWO32 + c0 + 8 * len, -((c1 + carry + hi) / TWO32));
  }

  /** The counter holds the bit length modulo 2^64. */
  ghost predicate Counts(c0: u32, c1: u32, n: nat) {
    c1 * TWO32 + c0 == 8 * n % TWO64
  }

  lemma CountsMore(c0: u32, c1: u32, n: nat, len: u32)
    requires Counts(c0, c1, n)
    ensures Counts(Count0(c0, len), Count1(c0, c1, len), n + len)
  {
    CountCarries(c0, c1, len);
    hide Count0, Count1;
    ReduceSum64(8 * n, 8 * len);
    assert 0 <= Count1(c0, c1, len) * TWO32 + Count0(c0, len) < TWO64;
  }

  /** The buffer position that Update computes is the message length modulo 64. */
  lemma CountPosition(c0: u32, c1: u32, n: nat)
    requires Counts(c0, c1, n)
    ensures c0 / 8 % 64 == n % 64
  {
    var k := 8 * n / TWO64;
    assert 8 * n == k * TWO64 + c1 * TWO32 + c0;
    var q := c0 / 8;
    assert c0 == 8 * q;
    assert n == (k * 0x80_0000_0000_0000 + c1 * 0x80_0000) * 64 + q;
    Peel(k * 0x80_0000_0000_0000 + c1 * 0x80_0000 + q / 64, 64, q % 64);
  }

  // ---------------------------------------------------------------- streaming

  /** What a context holds after the bytes m: the hash of their complete blocks, the bytes after
      them, and the bit length modulo 2^64. */
  ghost predicate Absorbed(state: seq<Word>, c0: u32, c1: u32, buffer: seq<Byte>, m: seq<Byte>) {
    && |state| == 5 && |buffer| == 64
    && Hash(state) == HashBlocks(H0, m)
    && buffer[..|m| % 64] == Tail(m)
    && Counts(c0, c1, |m|)
  }

  /** The words that SHA1Init stores. */
  function InitWord(k: nat): Word {
    match k
    case 0 => 0x67452301
    case 1 => 0xEFCDAB89
    case 2 => 0x98BADCFE
    case 3 => 0x10325476
    case _ => 0xC3D2E1F0
  }

  lemma AbsorbedFacts(state: seq<Word>, c0: u32, c1: u32, buffer: seq<Byte>, m: seq<Byte>)
    requires Absorbed(state, c0, c1, buffer, m)
    ensures |state| == 5 && |buffer| == 64 && Counts(c0, c1, |m|)
    ensures Hash(state) == HashBlocks(H0, m) && buffer[..|m| % 64] == Tail(m)
  {
  }

  lemma AbsorbedWhen(state: seq<Word>, c0: u32, c1: u32, buffer: seq<Byte>, m: seq<Byte>)
    requires |state| == 5 && |buffer| == 64 && Counts(c0, c1, |m|)
    requires Hash(state) == HashBlocks(H0, m) && buffer[..|m| % 64] == Tail(m)
    ensures Absorbed(state, c0, c1, buffer, m)
  {
  }

  lemma AbsorbedNothing(state: seq<Word>, buffer: seq<Byte>)
    requires |state| == 5 && (forall k :: 0 <= k < 5 ==> state[k] == InitWord(k)) && |buffer| == 64
    ensures Absorbed(state, 0, 0, buffer, [])
  {
    assert Hash(state) == Registers(InitWord(0), InitWord(1), InitWord(2), InitWord(3), InitWord(4));
  }

  /** The 32-bit test (j + len) > 63 tells whether a block is completed exactly when the sum does not
      wrap; when it wraps, more bytes than the buffer holds would be copied into it. */
  lemma GuardExact(j: nat, len: u32)
    requires j < 64
    ensures ((j + len) % TWO32 > 63 <==> j + len > 63) <==> j + len < TWO32
    ensures j + len >= TWO32 ==> j + len > 64
  {
  }

  /** The buffered tail and the new bytes up to the block boundary make one block. */
  lemma FirstBlock(m: seq<Byte>, data: seq<Byte>, block: seq<Byte>)
    requires var j := |m| % 64; |data| >= 64 - j && block == Tail(m) + data[..64 - j]
    ensures HashBlocks(H0, m + data[..64 - |m| % 64]) == Compress(HashBlocks(H0, m), block)
    ensures |m + data[..64 - |m| % 64]| % 64 == 0
  {
    hide HashBlocks, Compress;
    hide Tail;
    var a := SplitTail(m);
    assert m + data[..64 - |m| % 64] == a + block;
    HashTail(a, Tail(m));
    HashOneMore(a, block);
  }

  lemma NextBlock(m: seq<Byte>, data: seq<Byte>, i: nat)
    requires i + 64 <= |data| && (|m| + i) % 64 == 0
    ensures HashBlocks(H0, m + data[..i + 64]) == Compress(HashBlocks(H0, m + data[..i]), data[i..i + 64])
  {
    hide HashBlocks, Compress;
    assert m + data[..i + 64] == (m + data[..i]) + data[i..i + 64];
    HashOneMore(m + data[..i], data[i..i + 64]);
  }

  lemma LastBytes(m: seq<Byte>, data: seq<Byte>, i: nat)
    requires i <= |data| < i + 64 && (|m| + i) % 64 == 0
    ensures HashBlocks(H0, m + data) == HashBlocks(H0, m + data[..i])
  {
    hide HashBlocks;
    assert m + data == (m + data[..i]) + data[i..];
    HashTail(m + data[..i], data[i..]);
  }

  lemma LastTail(m: seq<Byte>, data: seq<Byte>, i: nat)
    requires i <= |data| < i + 64 && (|m| + i) % 64 == 0
    ensures Tail(m + data) == data[i..]
  {
    hide Tail;
    assert m + data == (m + data[..i]) + data[i..];
    TailOf(m + data[..i], data[i..]);
  }

  lemma NoBlock(m: seq<Byte>, data: seq<Byte>)
    requires |m| % 64 + |data| < 64
    ensures HashBlocks(H0, m + data) == HashBlocks(H0, m)
  {
    hide HashBlocks, Tail;
    var a := SplitTail(m);
    HashTail(a, Tail(m));
    HashTail(a, Tail(m) + data);
    assert m + data == a + (Tail(m) + data);
  }

  lemma LongerTail(m: seq<Byte>, data: seq<Byte>)
    requires |m| % 64 + |data| < 64
    ensures Tail(m + data) == Tail(m) + data
  {
    hide Tail;
    var a := SplitTail(m);
    TailOf(a, Tail(m) + data);
    assert m + data == a + (Tail(m) + data);
  }

  class Context {
    const state: array<Word>
    const buffer: array<Byte>
    var count0: u32
    var count1: u32
    /** All the bytes given so far. */
    ghost var message: seq<Byte>

    ghost predicate Valid()
      reads this, state, buffer
    {
      Absorbed(state[..], count0, count1, buffer[..], message)
    }

    constructor ()
      ensures state.Length == 5 && buffer.Length == 64 && fresh(state) && fresh(buffer)
    {
      state := new Word[5](_ => 0);
      buffer := new Byte[64](_ => 0);
      count0, count1, message := 0, 0, [];
    }

    /** SHA1Init. */
    method Init()
      requires state.Length == 5 && buffer.Length == 64
      modifies this, state
      ensures Valid() && message == []
    {
      hide Absorbed, InitWord;
      for k := 0 to 5
        invariant forall i :: 0 <= i < k ==> state[i] == InitWord(i)
      {
        state[k] := InitWord(k);
      }
      count0, count1, message := 0, 0, [];
      AbsorbedNothing(state[..], buffer[..]);
    }

    /** The bit counter: 64 bits in two words, with the carry by hand. */
    method AdvanceCount(len: u32)
      modifies this`count0, this`count1
      ensures count0 == old(Count0(count0, len)) && count1 == old(Count1(count0, count1, len))
    {
      var j := count0;
      count0 := (count0 + len * 8 % TWO32) % TWO32;
      if count0 < j {
        count1 := (count1 + 1) % TWO32;
      }
      count1 := (count1 + len / 0x2000_0000) % TWO32;
    }

    /** memcpy into the buffer. */
    method CopyIn(at: nat, bytes: seq<Byte>)
      requires buffer.Length == 64 && at + |bytes| <= 64
      modifies buffer
      ensures buffer[..at + |bytes|] == old(buffer[..at]) + bytes
    {
      ghost var before := buffer[..];
      for k := 0 to |bytes|
        invariant forall n :: 0 <= n < at ==> buffer[n] == before[n]
        invariant forall n :: 0 <= n < k ==> buffer[at + n] == bytes[n]
      {
        buffer[at + k] := bytes[k];
      }
    }

    /** The complete blocks that lie in the data itself. */
    method HashData(data: seq<Byte>, start: nat, ghost m: seq<Byte>) returns (i: nat)
      requires state.Length == 5 && start <= |data| && |m| % 64 + |data| < TWO32
      requires (|m| + start) % 64 == 0 && start <= 64 && Hash(state[..]) == HashBlocks(H0, m + data[..start])
      modifies state
      ensures i <= |data| < i + 64 && (|m| + i) % 64 == 0
      ensures Hash(state[..]) == HashBlocks(H0, m + data[..i])
    {
      hide HashBlocks, Compress, Hash;
      i := start;
      while (i + 63) % TWO32 < |data|
        invariant i <= |data| && (|m| + i) % 64 == 0
        invariant Hash(state[..]) == HashBlocks(H0, m + data[..i])
        decreases |data| - i
      {
        NoWrap(|m|, i, |data|);
        NextBlock(m, data, i);
        Transform(state, data[i..i + 64]);
        i := i + 64;
      }
      NoWrap(|m|, i, |data|);
    }

    /** SHA1Update. It writes past its buffer exactly when the bytes waiting and the new ones reach 2^32
        together, because then the 32-bit test for a complete block fails: `overrun`. */
    method Update(data: seq<Byte>) returns (overrun: bool)
      requires Valid() && |data| < TWO32
      modifies this`count0, this`count1, this`message, state, buffer
      ensures overrun <==> |old(message)| % 64 + |data| >= TWO32
      ensures !overrun ==> Valid() && message == old(message) + data
    {
      hide Absorbed, Count0, Count1, Counts, HashBlocks, Tail, Hash;
      ghost var m := message;
      AbsorbedFacts(state[..], count0, count1, buffer[..], m);
      CountsMore(count0, count1, |m|, |data|);
      CountPosition(count0, count1, |m|);
      GuardExact(|m| % 64, |data|);
      var j := count0 / 8 % 64;
      assert buffer[..j] == buffer[..][..j];
      AdvanceCount(|data|);
      if (j + |data|) % TWO32 > 63 {
        var i := CompleteBlock(j, data, m);
        i := HashData(data, i, m);
        LastBytes(m, data, i);
        LastTail(m, data, i);
        CopyIn(0, data[i..]);
        assert buffer[..0] + data[i..] == data[i..];
      } else {
        if j + |data| > buffer.Length {
          return true;
        }
        NoBlock(m, data);
        LongerTail(m, data);
        CopyIn(j, data);
      }
      AbsorbedWhen(state[..], count0, count1, buffer[..], m + data);
      message := message + data;
      overrun := false;
    }

    /** Fills the buffer up to a block and hashes it. */
    method CompleteBlock(j: nat, data: seq<Byte>, ghost m: seq<Byte>) returns (i: nat)
      requires state.Length == 5 && buffer.Length == 64 && j == |m| % 64 && buffer[..j] == Tail(m)
      requires Hash(state[..]) == HashBlocks(H0, m) && 64 <= j + |data|
      modifies state, buffer
      ensures i == 64 - j && (|m| + i) % 64 == 0 && Hash(state[..]) == HashBlocks(H0, m + data[..i])
    {
      hide HashBlocks, Tail, Hash, Compress;
      i := 64 - j;
      CopyIn(j, data[..i]);
      assert buffer[..] == Tail(m) + data[..i] by {
        assert buffer[..] == buffer[..64];
      }
      FirstBlock(m, data, buffer[..]);
      Transform(state, buffer[..]);
    }

    /** SHA1Final: pads one byte at a time, appends the length and reads the digest out. */
    method Final() returns (digest: seq<Byte>)
      requires Valid()
      modifies this, state, buffer
      ensures digest == Digest(old(message))
      ensures count0 == 0 && count1 == 0
      ensures forall k :: 0 <= k < 5 ==> state[k] == 0
      ensures forall k :: 0 <= k < 64 ==> buffer[k] == 0
    {
      hide Absorbed, HashBlocks, NumberBytes, WordBytes;
      ghost var m := message;
      AbsorbedFacts(state[..], count0, count1, buffer[..], m);
      var finalCount := CountBytes();
      PadZeros();
      var _ := Update(finalCount);
      assert message == Padded(m);
      digest := ReadDigest();
      Clear();
    }

    /** The eight length bytes, the high word first. */
    method CountBytes() returns (b: seq<Byte>)
      requires Valid()
      ensures b == NumberBytes(8 * |message|, 8)
    {
      b := [];
      for i := 0 to 8
        invariant |b| == i && forall k :: 0 <= k < i ==> b[k] == CountByte(count0, count1, k)
      {
        b := b + [CountByte(count0, count1, i)];
      }
      hide CountByte;
      CountByteIs(count0, count1, |message|, b);
    }

    /** The byte 0x80, then zero bytes until the position is 56 modulo 64. */
    method PadZeros()
      requires Valid()
      modifies this, state, buffer
      ensures Valid() && message == old(message) + [0x80] + Zeros(ZeroCount(|old(message)|))
    {
      ghost var m := message;
      hide ZeroCount, Absorbed;
      var _ := Update([0x80]);
      ghost var k := 0;
      assert message == m + [0x80] + Zeros(0);
      while count0 / 8 % 64 != 56
        invariant Valid() && 0 <= k <= ZeroCount(|m|) && message == m + [0x80] + Zeros(k)
        decreases ZeroCount(|m|) - k
      {
        AbsorbedPosition(state[..], count0, count1, buffer[..], message);
        PaddingPosition(|m|, k);
        var _ := Update([0]);
        k := k + 1;
        assert Zeros(k) == Zeros(k - 1) + [0];
      }
      AbsorbedPosition(state[..], count0, count1, buffer[..], message);
      PaddingPosition(|m|, k);
    }

    method ReadDigest() returns (digest: seq<Byte>)
      requires Valid()
      ensures var h := HashBlocks(H0, message);
        digest == WordBytes(h.a) + WordBytes(h.b) + WordBytes(h.c) + WordBytes(h.d) + WordBytes(h.e)
    {
      hide WordBytes, HashBlocks;
      digest := WordBytes(state[0]) + WordBytes(state[1]) + WordBytes(state[2])
        + WordBytes(state[3]) + WordBytes(state[4]);
    }

    /** memset of the context. */
    method Clear()
      requires state.Length == 5 && buffer.Length == 64
      modifies this, state, buffer
      ensures count0 == 0 && count1 == 0
      ensures forall k :: 0 <= k < 5 ==> state[k] == 0
      ensures forall k :: 0 <= k < 64 ==> buffer[k] == 0
    {
      count0, count1 := 0, 0;
      forall k | 0 <= k < 5 { state[k] := 0; }
      forall k | 0 <= k < 64 { buffer[k] := 0; }
    }
  }

  // ---------------------------------------------------------------- whole digests

  /** SHA1: one byte at a time; a negative length hashes nothing. The result is zero-terminated. */
  method SHA1(str: seq<Byte>, len: int) returns (hash: seq<Byte>)
    requires len <= |str|
    ensures hash == Digest(if len < 0 then [] else str[..len]) + [0]
  {
    hide Absorbed, Digest;
    var ctx := new Context();
    ctx.Init();
    var ii := 0;
    while ii < len
      invariant 0 <= ii && (0 <= len ==> ii <= len) && (len < 0 ==> ii == 0)
      invariant ctx.Valid() && ctx.message == str[..ii] && fresh(ctx) && fresh(ctx.state) && fresh(ctx.buffer)
    {
      var _ := ctx.Update([str[ii]]);
      assert str[..ii + 1] == str[..ii] + [str[ii]];
      ii := ii + 1;
    }
    hash := ctx.Final();
    hash := hash + [0];
  }

  function Flatten(chunks: seq<seq<Byte>>): seq<Byte> {
    if chunks == [] then [] else Flatten(chunks[..|chunks| - 1]) + chunks[|chunks| - 1]
  }

  /** However a message is cut into pieces of at most 2^32 - 64 bytes, the digest is that of the whole. */
  method HashChunks(chunks: seq<seq<Byte>>) returns (digest: seq<Byte>)
    requires forall c <- chunks :: |c| <= TWO32 - 64
    ensures digest == Digest(Flatten(chunks))
  {
    hide Absorbed, Digest;
    var ctx := new Context();
    ctx.Init();
    for k := 0 to |chunks|
      invariant ctx.Valid() && ctx.message == Flatten(chunks[..k])
      invariant fresh(ctx) && fresh(ctx.state) && fresh(ctx.buffer)
    {
      assert chunks[..k + 1][..k] == chunks[..k];
      var _ := ctx.Update(chunks[k]);
    }
    assert chunks[..|chunks|] == chunks;
    digest := ctx.Final();
  }

  // ---------------------------------------------------------------- padding

  /** Byte k of a counter word. */
  function ByteOf(c: u32, k: nat): Byte {
    LowByte(if k == 0 then c else if k == 1 then c / 0x100 else if k == 2 then c / 0x1_0000 else c / 0x100_0000)
  }

  /** Byte i of finalcount. */
  function CountByte(c0: u32, c1: u32, i: nat): Byte
    requires i < 8
  {
    ByteOf(if i >= 4 then c0 else c1, 3 - i % 4)
  }

  lemma CountByteIs(c0: u32, c1: u32, n: nat, b: seq<Byte>)
    requires Counts(c0, c1, n) && |b| == 8 && forall k :: 0 <= k < 8 ==> b[k] == CountByte(c0, c1, k)
    ensures b == NumberBytes(8 * n, 8)
  {
    hide NumberBytes, ByteOf, Counts;
    HighBytes(c0, c1, b);
    LowBytes(c0, c1, b);
    hide CountByte;
    LengthBytes(c0, c1, n);
    assert b == b[..4] + b[4..];
  }

  lemma HighBytes(c0: u32, c1: u32, b: seq<Byte>)
    requires |b| == 8 && forall k :: 0 <= k < 8 ==> b[k] == CountByte(c0, c1, k)
    ensures b[..4] == NumberBytes(c1, 4)
  {
    hide NumberBytes, ByteOf;
    WordNumberBytes(c1);
    assert b[0] == ByteOf(c1, 3) && b[1] == ByteOf(c1, 2) && b[2] == ByteOf(c1, 1) && b[3] == ByteOf(c1, 0);
  }

  lemma LowBytes(c0: u32, c1: u32, b: seq<Byte>)
    requires |b| == 8 && forall k :: 0 <= k < 8 ==> b[k] == CountByte(c0, c1, k)
    ensures b[4..] == NumberBytes(c0, 4)
  {
    hide NumberBytes, ByteOf;
    WordNumberBytes(c0);
    assert b[4] == ByteOf(c0, 3) && b[5] == ByteOf(c0, 2) && b[6] == ByteOf(c0, 1) && b[7] == ByteOf(c0, 0);
  }

  lemma WordNumberBytes(c: u32)
    ensures NumberBytes(c, 4) == [ByteOf(c, 3), ByteOf(c, 2), ByteOf(c, 1), ByteOf(c, 0)]
  {
    hide LowByte;
    var c1, c2, c3 := c / 0x100, c / 0x100 / 0x100, c / 0x100 / 0x100 / 0x100;
    assert c2 == c / 0x1_0000 && c3 == c / 0x100_0000;
    assert NumberBytes(c3, 1) == NumberBytes(c3 / 0x100, 0) + [LowByte(c3)] == [LowByte(c3)];
    assert NumberBytes(c2, 2) == [LowByte(c3), LowByte(c2)];
    assert NumberBytes(c1, 3) == [LowByte(c3), LowByte(c2), LowByte(c1)];
  }

  function Pow256(n: nat): (p: nat)
    ensures p >= 1
  {
    if n == 0 then 1 else 0x100 * Pow256(n - 1)
  }

  lemma LowByteOf(hi: nat, p: nat, lo: nat)
    ensures LowByte(hi * (0x100 * p) + lo) == LowByte(lo)
    ensures (hi * (0x100 * p) + lo) / 0x100 == hi * p + lo / 0x100
  {
    hide LowByte;
    ByteShift(hi * p, lo);
    assert hi * (0x100 * p) == hi * p * 0x100;
    LowByteDepends(hi * (0x100 * p) + lo, lo);
  }

  lemma ByteShift(x: nat, lo: nat)
    ensures (x * 0x100 + lo) / 0x100 == x + lo / 0x100 && (x * 0x100 + lo) % 0x100 == lo % 0x100
  {
    Peel(x + lo / 0x100, 0x100, lo % 0x100);
    assert (x + lo / 0x100) * 0x100 + lo % 0x100 == x * 0x100 + lo;
  }

  lemma LowByteDepends(x: nat, y: nat)
    requires x % 0x100 == y % 0x100
    ensures LowByte(x) == LowByte(y)
  {
  }

  /** The bytes of a number, cut anywhere. */
  lemma {:induction false} NumberBytesSplit(hi: nat, lo: nat, n: nat, k: nat)
    requires lo < Pow256(k)
    ensures NumberBytes(hi * Pow256(k) + lo, n + k) == NumberBytes(hi, n) + NumberBytes(lo, k)
    decreases k
  {
    if k == 0 {
      assert hi * Pow256(k) + lo == hi;
    } else {
      var p := Pow256(k - 1);
      LowByteOf(hi, p, lo);
      NumberBytesSplit(hi, lo / 0x100, n, k - 1);
      hide LowByte, Pow256;
      assert n + k - 1 == n + (k - 1);
    }
  }

  /** The two counter words are the low 64 bits of the length in bits. */
  lemma CountsValue(c0: u32, c1: u32, n: nat)
    requires Counts(c0, c1, n)
    ensures 8 * n == (8 * n / TWO64 * TWO32 + c1) * TWO32 + c0
  {
  }

  lemma Pow256Four()
    ensures Pow256(4) == TWO32
  {
    assert Pow256(2) == 0x100 * Pow256(1);
  }

  lemma FourBytes(hi: nat, lo: u32, n: nat)
    ensures NumberBytes(hi * TWO32 + lo, n + 4) == NumberBytes(hi, n) + NumberBytes(lo, 4)
  {
    hide Pow256, NumberBytes;
    Pow256Four();
    NumberBytesSplit(hi, lo, n, 4);
  }

  lemma NoBytes(x: nat)
    ensures NumberBytes(x, 0) == []
  {
  }

  lemma LengthBytes(c0: u32, c1: u32, n: nat)
    requires Counts(c0, c1, n)
    ensures NumberBytes(c1, 4) + NumberBytes(c0, 4) == NumberBytes(8 * n, 8)
  {
    hide Counts, NumberBytes;
    var k: nat := 8 * n / TWO64;
    CountsValue(c0, c1, n);
    FourBytes(k * TWO32 + c1, c0, 4);
    FourBytes(k, c1, 0);
    NoBytes(k);
    assert [] + NumberBytes(c1, 4) == NumberBytes(c1, 4);
  }

  lemma AbsorbedPosition(state: seq<Word>, c0: u32, c1: u32, buffer: seq<Byte>, m: seq<Byte>)
    requires Absorbed(state, c0, c1, buffer, m)
    ensures c0 / 8 % 64 == |m| % 64
  {
    CountPosition(c0, c1, |m|);
  }

  /** Of the positions up to the computed number of zeros, only the last is 56 modulo 64. */
  lemma PaddingPosition(n: nat, k: nat)
    requires k <= ZeroCount(n)
    ensures (n + 1 + k) % 64 == 56 <==> k == ZeroCount(n)
  {
    var r := n % 64;
    var v := r + 1 + k;
    Peel(n / 64 + v / 64, 64, v % 64);
    assert n + 1 + k == (n / 64 + v / 64) * 64 + v % 64;
    assert ZeroCount(n) == if r <= 55 then 55 - r else 119 - r;
    assert v <= 120;
  }

  /** The loop index never wraps: i + 63 stays below 2^32. */
  lemma NoWrap(n: nat, i: nat, len: nat)
    requires i <= len && (n + i) % 64 == 0 && n % 64 + len < TWO32
    ensures (i + 63) % TWO32 == i + 63
  {
    var r := n % 64;
    assert (r + i) % 64 == 0;
    assert r + i <= TWO32 - 64;
  }
}
