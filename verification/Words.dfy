/** Fixed-width machine words as bounded integers. Every wrap-around, truncating cast and
    arithmetic shift of the C and C++ sources is written out over these. */
module Words {
  const TWO32: int := 0x1_0000_0000
  const TWO63: int := 0x8000_0000_0000_0000
  const TWO64: int := 0x1_0000_0000_0000_0000

  type u8 = x: int | 0 <= x < 0x100
  type u32 = x: int | 0 <= x < 0x1_0000_0000
  type u64 = x: int | 0 <= x < 0x1_0000_0000_0000_0000

  /** The value of a left shift by n. */
  function Pow2(n: nat): (p: int)
    ensures p >= 1
  {
    if n == 0 then 1 else 2 * Pow2(n - 1)
  }

  /** A shift by a sum is two shifts. */
  lemma {:induction false} Pow2Adds(m: nat, n: nat)
    ensures Pow2(m + n) == Pow2(m) * Pow2(n)
  {
    if m == 0 {
    } else {
      Pow2Adds(m - 1, n);
      assert Pow2(m + n) == 2 * Pow2(m - 1 + n);
    }
  }

  /** The low 64 bits of a word read as a two's complement number. */
  function Signed64(x: u64): (s: int)
    ensures -TWO63 <= s < TWO63 && s % TWO64 == x
  {
    if x < TWO63 then x else x - TWO64
  }

  function SignExtend12(x: int): (s: int)
    ensures -0x800 <= s < 0x800 && (s - x) % 0x1000 == 0
  {
    (x + 0x800) % 0x1000 - 0x800
  }

  function SignExtend32(x: int): (s: int)
    ensures -0x8000_0000 <= s < 0x8000_0000 && (s - x) % TWO32 == 0
  {
    (x + 0x8000_0000) % TWO32 - 0x8000_0000
  }

  /** Division and remainder take apart what multiplication and addition put together. */
  lemma Peel(q: int, k: int, r: int)
    requires 0 <= r < k
    ensures (q * k + r) / k == q && (q * k + r) % k == r
  {
    var d, m := (q * k + r) / k, (q * k + r) % k;
    assert (q - d) * k == m - r;
    assert q - d >= 1 ==> (q - d) * k >= k;
    assert q - d <= -1 ==> (q - d) * k <= -k;
  }

  /** A bit field of a word, wherever it lies. */
  lemma Field(w: int, hi: int, width: int, v: int, low: int, lo: int)
    requires 0 <= v < width && 0 <= lo < low
    requires w == (hi * width + v) * low + lo
    ensures w / low % width == v
  {
    Peel(hi * width + v, low, lo);
    Peel(hi, width, v);
  }

  /** Multiples of 2^64 do not matter modulo 2^64. */
  lemma AddMultiple(a: int, k: int)
    ensures (a + k * TWO64) % TWO64 == a % TWO64
  {
  }

  lemma ReduceSum64(a: int, b: int)
    ensures (a % TWO64 + b) % TWO64 == (a + b) % TWO64
  {
    AddMultiple(a % TWO64 + b, a / TWO64);
  }
}
