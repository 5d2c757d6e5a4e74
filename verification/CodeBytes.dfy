/** Little-endian halfwords and words in a code buffer. */
module CodeBytes {
  import opened Words

  function Bytes(w: nat, n: nat): (b: seq<u8>)
    ensures |b| == n
  {
    if n == 0 then [] else [w % 0x100] + Bytes(w / 0x100, n - 1)
  }

  function Fetch(code: seq<u8>, at: nat, n: nat): nat
    requires at + n <= |code|
    decreases n
  {
    if n == 0 then 0 else code[at] + 0x100 * Fetch(code, at + 1, n - 1)
  }

  /** Writing n bytes over what was there. */
  function Store(code: seq<u8>, at: nat, w: nat, n: nat): (c: seq<u8>)
    requires at + n <= |code|
    ensures |c| == |code|
  {
    code[..at] + Bytes(w, n) + code[at + n..]
  }

  /** A fetch sees only its own n bytes. */
  lemma {:induction false} FetchDepends(a: seq<u8>, b: seq<u8>, at: nat, n: nat)
    requires at + n <= |a| && at + n <= |b|
    requires forall k :: at <= k < at + n ==> a[k] == b[k]
    ensures Fetch(a, at, n) == Fetch(b, at, n)
    decreases n
  {
    if n > 0 {
      FetchDepends(a, b, at + 1, n - 1);
    }
  }

  /** The bound that n bytes can hold. */
  function Capacity(n: nat): (c: nat)
    ensures c >= 1
  {
    if n == 0 then 1 else 0x100 * Capacity(n - 1)
  }

  /** Round trip: a value that fits n bytes is fetched back from where it was written. */
  lemma {:induction false} FetchBytes(code: seq<u8>, at: nat, w: nat, n: nat)
    requires at + n <= |code| && w < Capacity(n)
    requires code[at..at + n] == Bytes(w, n)
    ensures Fetch(code, at, n) == w
    decreases n
  {
    if n > 0 {
      assert code[at] == code[at..at + n][0] == w % 0x100;
      assert code[at + 1..at + n] == code[at..at + n][1..] == Bytes(w / 0x100, n - 1);
      FetchBytes(code, at + 1, w / 0x100, n - 1);
    }
  }

  /** The low halfword of a word is the fetch of its first two bytes. */
  lemma FetchLow(code: seq<u8>, at: nat)
    requires at + 4 <= |code|
    ensures Fetch(code, at, 2) == Fetch(code, at, 4) % 0x1_0000
  {
    var b0, b1, b2, b3 := code[at], code[at + 1], code[at + 2], code[at + 3];
    assert Fetch(code, at + 2, 2) == b2 + 0x100 * (b3 + 0x100 * Fetch(code, at + 4, 0));
    assert Fetch(code, at, 2) == b0 + 0x100 * (b1 + 0x100 * Fetch(code, at + 2, 0));
    assert Fetch(code, at, 4) == b0 + 0x100 * (b1 + 0x100 * Fetch(code, at + 2, 2));
    Peel(b2 + 0x100 * b3, 0x1_0000, b0 + 0x100 * b1);
  }

  lemma {:induction false} FetchBound(code: seq<u8>, at: nat, n: nat)
    requires at + n <= |code|
    ensures Fetch(code, at, n) < Capacity(n)
    decreases n
  {
    if n > 0 {
      FetchBound(code, at + 1, n - 1);
    }
  }

  lemma Capacities()
    ensures Capacity(2) == 0x1_0000 && Capacity(4) == TWO32
  {
    assert Capacity(2) == 0x100 * Capacity(1) && Capacity(1) == 0x100 * Capacity(0);
    assert Capacity(4) == 0x100 * Capacity(3) && Capacity(3) == 0x100 * Capacity(2);
  }

  lemma FetchStored(code: seq<u8>, at: nat, w: nat, n: nat)
    requires at + n <= |code| && w < Capacity(n)
    ensures Fetch(Store(code, at, w, n), at, n) == w
  {
    assert Store(code, at, w, n)[at..at + n] == Bytes(w, n);
    FetchBytes(Store(code, at, w, n), at, w, n);
  }
}
