/** Types shared by every component: machine words as bounded integers, 32-byte digests,
    the hash function as a parameter, and the Option / Result wrappers that stand for
    the source's `Option`, error returns and panics. */
module Basics {
  type u8 = x: int | 0 <= x < 0x100
  type u16 = x: int | 0 <= x < 0x1_0000
  type u64 = x: int | 0 <= x < 0x1_0000_0000_0000_0000

  type Bytes = seq<u8>

  /** The source's `[u8; 32]`. */
  type Digest = d: seq<u8> | |d| == 32 witness seq(32, _ => 0)

  /** BLAKE3 (or SHA-256), about which nothing is assumed beyond its result width. Every
      statement below holds for every such function, injective or not. */
  type Hasher = Bytes -> Digest

  /** The content-addressed store as its readers see it: the bytes under each digest. */
  type Cas = map<Digest, Bytes>

  datatype Option<+T> = None | Some(value: T)

  /** Failure-compatible, so that `:-` reads as the source's `?`. */
  datatype Result<+T, +E> = Ok(value: T) | Err(error: E) {
    predicate IsFailure() {
      Err?
    }

    function PropagateFailure<U>(): Result<U, E>
      requires Err?
    {
      Err(error)
    }

    function Extract(): T
      requires Ok?
    {
      value
    }
  }

  /** Two distinct inputs with the same hash. */
  type Collision = (Bytes, Bytes)

  predicate IsCollision(H: Hasher, c: Collision) {
    c.0 != c.1 && H(c.0) == H(c.1)
  }

  function Pow2(n: nat): (p: nat)
    ensures p >= 1
  {
    if n == 0 then 1 else 2 * Pow2(n - 1)
  }
}
