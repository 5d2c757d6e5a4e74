/** The Secure Hash Algorithm SHA-1 as FIPS 180-4 defines it. */
module Sha1Spec {
  type Byte = bv8
  type Word = bv32

  function Rotl(x: Word, n: bv6): Word
    requires 0 < n < 32
  {
    (x << n) | (x >> (32 - n))
  }

  /** Section 4.1.1: the functions of the rounds. */
  function Ch(x: Word, y: Word, z: Word): Word { (x & y) ^ (!x & z) }
  function Parity(x: Word, y: Word, z: Word): Word { x ^ y ^ z }
  function Maj(x: Word, y: Word, z: Word): Word { (x & y) ^ (x & z) ^ (y & z) }

  function F(t: nat, x: Word, y: Word, z: Word): Word {
    if t < 20 then Ch(x, y, z) else if 40 <= t < 60 then Maj(x, y, z) else Parity(x, y, z)
  }

  /** Section 4.2.1: the constant of round t. */
  function K(t: nat): Word {
    if t < 20 then 0x5A827999 else if t < 40 then 0x6ED9EBA1 else if t < 60 then 0x8F1BBCDC else 0xCA62C1D6
  }

  /** The constants are the integer parts of 2^30 times the square roots of 2, 3, 5 and 10. */
  lemma RoundConstants(t: nat)
    requires t < 80
    ensures var k, c := K(t) as int, [2, 3, 5, 10][t / 20];
      k * k <= c * 0x1000_0000_0000_0000 < (k + 1) * (k + 1)
  {
  }

  /** Section 3.1: four bytes as a word, the most significant first. */
  function BigEndian(b: seq<Byte>, at: nat): Word
    requires at + 4 <= |b|
  {
    Join(b[at], b[at + 1], b[at + 2], b[at + 3])
  }

  function Join(a: Byte, b: Byte, c: Byte, d: Byte): Word {
    ((a as Word) << 24) | ((b as Word) << 16) | ((c as Word) << 8) | (d as Word)
  }

  /** Section 6.1.2, step 1: word t of the message schedule of a 64-byte block. */
  function W(block: seq<Byte>, t: nat): Word
    requires |block| == 64
  {
    if t < 16 then BigEndian(block, 4 * t)
    else Rotl(W(block, t - 3) ^ W(block, t - 8) ^ W(block, t - 14) ^ W(block, t - 16), 1)
  }

  datatype Registers = Registers(a: Word, b: Word, c: Word, d: Word, e: Word)

  /** Addition modulo 2^32 of the five terms of a round. */
  function Sum(a: Word, f: Word, e: Word, k: Word, w: Word): Word {
    a + f + e + k + w
  }

  /** Section 6.1.2, step 3: one round. */
  function Round(r: Registers, t: nat, w: Word): Registers {
    Registers(Sum(Rotl(r.a, 5), F(t, r.b, r.c, r.d), r.e, K(t), w), r.a, Rotl(r.b, 30), r.c, r.d)
  }

  /** The working variables after t rounds. */
  function Rounds(block: seq<Byte>, h: Registers, t: nat): Registers
    requires |block| == 64
  {
    if t == 0 then h else Round(Rounds(block, h, t - 1), t - 1, W(block, t - 1))
  }

  /** Addition modulo 2^32. */
  function Plus(x: Word, y: Word): Word {
    x + y
  }

  /** Section 6.1.2, step 4. */
  function AddHash(h: Registers, r: Registers): Registers {
    Registers(Plus(h.a, r.a), Plus(h.b, r.b), Plus(h.c, r.c), Plus(h.d, r.d), Plus(h.e, r.e))
  }

  /** Section 6.1.2: the hash value after one more block. */
  function Compress(h: Registers, block: seq<Byte>): Registers
    requires |block| == 64
  {
    AddHash(h, Rounds(block, h, 80))
  }

  /** Section 5.3.1. */
  const H0 := Registers(0x67452301, 0xEFCDAB89, 0x98BADCFE, 0x10325476, 0xC3D2E1F0)

  /** The hash value over the complete 64-byte blocks of a message. */
  function HashBlocks(h: Registers, m: seq<Byte>): Registers
    decreases |m|
  {
    if |m| < 64 then h else HashBlocks(Compress(h, m[..64]), m[64..])
  }

  /** Section 5.1.1: the number of zero bytes between the 0x80 byte and the length. */
  function ZeroCount(n: nat): nat {
    (119 - n % 64) % 64
  }

  function Zeros(n: nat): (z: seq<Byte>)
    ensures |z| == n
  {
    seq(n, _ => 0)
  }

  function LowByte(x: nat): Byte {
    (x % 0x100) as Byte
  }

  /** The low 8 * n bits of a number, the most significant byte first. */
  function NumberBytes(x: nat, n: nat): (b: seq<Byte>)
    ensures |b| == n
  {
    if n == 0 then [] else NumberBytes(x / 0x100, n - 1) + [LowByte(x)]
  }

  /** Section 5.1.1: the padded message. Its length field holds 64 bits. */
  function Padded(m: seq<Byte>): seq<Byte> {
    m + [0x80] + Zeros(ZeroCount(|m|)) + NumberBytes(8 * |m|, 8)
  }

  function WordBytes(w: Word): seq<Byte> {
    [((w >> 24) & 0xFF) as Byte, ((w >> 16) & 0xFF) as Byte, ((w >> 8) & 0xFF) as Byte, (w & 0xFF) as Byte]
  }

  /** The bytes of a word read back as the word. */
  lemma WordBytesRead(w: Word)
    ensures |WordBytes(w)| == 4 && BigEndian(WordBytes(w), 0) == w
  {
  }

  /** Section 6.1: the message digest. */
  function Digest(m: seq<Byte>): seq<Byte> {
    var h := HashBlocks(H0, Padded(m));
    WordBytes(h.a) + WordBytes(h.b) + WordBytes(h.c) + WordBytes(h.d) + WordBytes(h.e)
  }
}
