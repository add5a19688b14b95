/** Bytes, 32-byte digests and hash functions.

    A hash function is an arbitrary function from byte strings to digests: nothing
    about SHA-256 is assumed.  A theorem that would need collision resistance
    instead says which pair of inputs collides, and that pair is the value of a
    function of the theorem's own inputs. */
module Digests {
  newtype byte = x: int | 0 <= x < 256

  type Bytes = seq<byte>

  type Digest = b: Bytes | |b| == 32 witness seq(32, _ => 0)

  type Hash = Bytes -> Digest

  datatype Pair<T> = Pair(fst: T, snd: T)

  /** Two different byte strings with one digest. */
  predicate IsCollision(h: Hash, c: Pair<Bytes>) {
    c.fst != c.snd && h(c.fst) == h(c.snd)
  }
}

/** Powers of two and the bits of an index. */
module Bits {
  function Pow2(p: nat): (r: nat)
    ensures r >= 1
  {
    if p == 0 then 1 else Pow2(p - 1) + Pow2(p - 1)
  }

  /** The m low bits of x, lowest first; true is one.  Halving rounds down, so a negative
      number has the bits of its two's complement. */
  function LowBits(x: int, m: nat): (bits: seq<bool>)
    ensures |bits| == m
    decreases m
  {
    if m == 0 then [] else [x % 2 == 1] + LowBits(x / 2, m - 1)
  }

  lemma {:induction false} LowBitsWrap(x: int, p: nat)
    ensures LowBits(x + Pow2(p), p) == LowBits(x, p)
    decreases p
  {
    if p > 0 {
      LowBitsWrap(x / 2, p - 1);
      assert (x + Pow2(p)) / 2 == x / 2 + Pow2(p - 1);
    }
  }

  lemma {:induction false} Pow2Monotonic(p: nat, q: nat)
    requires p <= q
    ensures Pow2(p) <= Pow2(q)
  {
    if p < q {
      Pow2Monotonic(p, q - 1);
    }
  }

  lemma {:induction false} Pow2Exceeds(p: nat)
    ensures p < Pow2(p)
  {
    if p > 0 {
      Pow2Exceeds(p - 1);
    }
  }
}
