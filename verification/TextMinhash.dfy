/** The text MinHash kernel: 128 keyed minima over the 5-gram shingles of normalized text, and
    what a component two signatures have in common says about the texts. */
module TextMinhash {
  import opened Basics
  import opened Words
  import opened Banding
  import opened Shingles

  /** BLAKE3's keyed mode, about which nothing is assumed. */
  type KeyedHasher = (Digest, Bytes) -> Digest

  const PERMUTATIONS: nat := 128
  const SHINGLE_SIZE: nat := 5
  const MAX: u64 := 0xFFFF_FFFF_FFFF_FFFF

  /** "attestrum-minhash-v1-perm-" */
  const KEY_PREFIX: Bytes := [
    0x61, 0x74, 0x74, 0x65, 0x73, 0x74, 0x72, 0x75, 0x6D, 0x2D, 0x6D, 0x69, 0x6E, 0x68, 0x61, 0x73, 0x68, 0x2D,
    0x76, 0x31, 0x2D, 0x70, 0x65, 0x72, 0x6D, 0x2D]

  /** Overlapping windows of five words, joined by spaces; of fewer words, one shingle of all. */
  function KernelShingles(words: seq<Bytes>): (shingles: seq<Bytes>)
    ensures shingles == [] <==> words == []
  {
    if words == [] then []
    else if |words| < SHINGLE_SIZE then [JoinSpace(words)]
    else
      seq(|words| - SHINGLE_SIZE + 1,
          i requires 0 <= i <= |words| - SHINGLE_SIZE => JoinSpace(words[i..i + SHINGLE_SIZE]))
  }

  function PermutationKey(H: Hasher, i: nat): Digest {
    H(KEY_PREFIX + ToLE(i, 8))
  }

  function ComponentHash(K: KeyedHasher, key: Digest, shingle: Bytes): u64 {
    First8(K(key, shingle))
  }

  /** The least hash of the shingles, MAX of none. */
  function Least(K: KeyedHasher, key: Digest, shingles: seq<Bytes>): u64 {
    if shingles == [] then MAX
    else
      var least, h := Least(K, key, shingles[..|shingles| - 1]), ComponentHash(K, key, shingles[|shingles| - 1]);
      if h < least then h else least
  }

  function Compute(H: Hasher, K: KeyedHasher, text: Bytes): MinHash {
    seq(PERMUTATIONS, i requires 0 <= i < PERMUTATIONS => Least(K, PermutationKey(H, i), KernelShingles(WordsOf(text))))
  }

  /** `minhash::compute`. */
  method ComputeLoop(H: Hasher, K: KeyedHasher, text: Bytes) returns (out: MinHash)
    ensures out == Compute(H, K, text)
  {
    var tokens := WordsOf(text);
    if tokens == [] {
      return seq(PERMUTATIONS, _ => MAX);
    }
    var shingles := KernelShingles(tokens);
    var components: seq<u64> := [];
    for i := 0 to PERMUTATIONS
      invariant components == Compute(H, K, text)[..i]
    {
      var key := PermutationKey(H, i);
      var least := MAX;
      for j := 0 to |shingles|
        invariant least == Least(K, key, shingles[..j])
      {
        assert shingles[..j + 1][..j] == shingles[..j];
        var h := ComponentHash(K, key, shingles[j]);
        if h < least {
          least := h;
        }
      }
      assert shingles[..|shingles|] == shingles;
      components := components + [least];
    }
    out := components;
  }

  // ------------------------------------------------------------------------
  // What a component is
  // ------------------------------------------------------------------------

  lemma {:induction false} LeastIsLeast(K: KeyedHasher, key: Digest, shingles: seq<Bytes>, s: Bytes)
    requires s in shingles
    ensures Least(K, key, shingles) <= ComponentHash(K, key, s)
  {
    hide ComponentHash;
    var k := |shingles| - 1;
    if s in shingles[..k] {
      LeastIsLeast(K, key, shingles[..k], s);
    }
  }

  /** The first eight bytes, as a little-endian number, of a shingle's hash under the key that is
      the hash of "attestrum-minhash-v1-perm-" and the component's number in eight bytes. */
  function ShingleUnder(H: Hasher, K: KeyedHasher, i: nat, shingle: Bytes): nat {
    FromLE(K(H([0x61, 0x74, 0x74, 0x65, 0x73, 0x74, 0x72, 0x75, 0x6D, 0x2D, 0x6D, 0x69, 0x6E, 0x68, 0x61, 0x73, 0x68,
                0x2D, 0x76, 0x31, 0x2D, 0x70, 0x65, 0x72, 0x6D, 0x2D] + ToLE(i, 8)), shingle)[..8])
  }

  function FiveWords(words: seq<Bytes>, j: nat): Bytes
    requires j + 5 <= |words|
  {
    JoinSpace(words[j..j + 5])
  }

  /** A component of a text with words is at most the hash of every window of five words joined by
      spaces, and the hash of one of them; of fewer words there is one window, all of them. */
  lemma ComponentMeans(H: Hasher, K: KeyedHasher, text: Bytes, i: nat)
    requires i < 128 && WordsOf(text) != []
    ensures var words, c := WordsOf(text), Compute(H, K, text)[i];
            && (|words| < 5 ==> c == ShingleUnder(H, K, i, JoinSpace(words)))
            && (|words| >= 5 ==>
                 && (forall j: nat :: j + 5 <= |words| ==> c <= ShingleUnder(H, K, i, FiveWords(words, j)))
                 && exists j: nat :: j + 5 <= |words| && c == ShingleUnder(H, K, i, FiveWords(words, j)))
  {
    hide WordsOf, JoinSpace, Least, ToLE, FromLE;
    var words, shingles, key := WordsOf(text), KernelShingles(WordsOf(text)), PermutationKey(H, i);
    assert forall s :: ComponentHash(K, key, s) == ShingleUnder(H, K, i, s);
    var s := LeastAttained(K, key, shingles);
    var j :| 0 <= j < |shingles| && shingles[j] == s;
    if |words| >= 5 {
      assert s == FiveWords(words, j);
      forall j: nat | j + 5 <= |words|
        ensures Least(K, key, shingles) <= ShingleUnder(H, K, i, FiveWords(words, j))
      {
        assert shingles[j] in shingles;
        LeastIsLeast(K, key, shingles, shingles[j]);
      }
    }
  }

  // ------------------------------------------------------------------------
  // What equal components mean
  // ------------------------------------------------------------------------

  /** The minimum is some shingle's hash. */
  lemma {:induction false} LeastAttained(K: KeyedHasher, key: Digest, shingles: seq<Bytes>) returns (s: Bytes)
    requires shingles != []
    ensures s in shingles && ComponentHash(K, key, s) == Least(K, key, shingles)
  {
    hide ComponentHash;
    var k := |shingles| - 1;
    s := shingles[k];
    if k > 0 && Least(K, key, shingles) != ComponentHash(K, key, s) {
      s := LeastAttained(K, key, shingles[..k]);
    }
  }

  /** Two different shingles, of these two texts, with the same hash in one component. */
  ghost predicate CollidesAt(H: Hasher, K: KeyedHasher, a: Bytes, b: Bytes, i: nat, x: Bytes, y: Bytes) {
    && i < PERMUTATIONS && x != y
    && x in KernelShingles(WordsOf(a)) && y in KernelShingles(WordsOf(b))
    && ComponentHash(K, PermutationKey(H, i), x) == ComponentHash(K, PermutationKey(H, i), y)
  }

  ghost predicate ComponentCollision(H: Hasher, K: KeyedHasher, a: Bytes, b: Bytes) {
    exists i, x, y :: CollidesAt(H, K, a, b, i, x, y)
  }

  /** Equal components of texts with words are those of a common shingle, or collide. */
  lemma CommonShingle(H: Hasher, K: KeyedHasher, a: Bytes, b: Bytes, i: nat) returns (s: Bytes)
    requires i < PERMUTATIONS && Compute(H, K, a)[i] == Compute(H, K, b)[i]
    requires WordsOf(a) != [] && WordsOf(b) != [] && !ComponentCollision(H, K, a, b)
    ensures s in KernelShingles(WordsOf(a)) && s in KernelShingles(WordsOf(b))
  {
    hide WordsOf, KernelShingles, ComponentHash, PermutationKey, Least;
    var key := PermutationKey(H, i);
    var x := LeastAttained(K, key, KernelShingles(WordsOf(a)));
    var y := LeastAttained(K, key, KernelShingles(WordsOf(b)));
    assert x != y ==> CollidesAt(H, K, a, b, i, x, y);
    s := x;
  }

  /** The words a shingle is of. */
  lemma ShingleWords(text: Bytes, s: Bytes) returns (words: seq<Bytes>, start: nat)
    requires s in KernelShingles(WordsOf(text))
    ensures words == WordsOf(s) && words != [] && |words| <= SHINGLE_SIZE
    ensures |WordsOf(text)| < SHINGLE_SIZE ==> words == WordsOf(text)
    ensures |WordsOf(text)| >= SHINGLE_SIZE ==>
              |words| == SHINGLE_SIZE && start + SHINGLE_SIZE <= |WordsOf(text)|
              && words == WordsOf(text)[start..start + SHINGLE_SIZE]
  {
    hide WordsOf, JoinSpace;
    var all, shingles := WordsOf(text), KernelShingles(WordsOf(text));
    start :| 0 <= start < |shingles| && shingles[start] == s;
    words := if |all| < SHINGLE_SIZE then all else all[start..start + SHINGLE_SIZE];
    WordsAreWords(text);
    WordsOfJoinSpace(words);
  }

  /** A component in common, without a collision, means a common 5-gram in both shingle sets,
      or the same fewer than five words. */
  lemma EqualComponentsMean(H: Hasher, K: KeyedHasher, a: Bytes, b: Bytes, i: nat)
    requires i < PERMUTATIONS && Compute(H, K, a)[i] == Compute(H, K, b)[i]
    requires WordsOf(a) != [] && WordsOf(b) != [] && !ComponentCollision(H, K, a, b)
    ensures |WordsOf(a)| < SHINGLE_SIZE || |WordsOf(b)| < SHINGLE_SIZE ==> WordsOf(a) == WordsOf(b)
    ensures |WordsOf(a)| >= SHINGLE_SIZE ==>
              exists h :: h in ShingleSet(H, a, SHINGLE_SIZE) && h in ShingleSet(H, b, SHINGLE_SIZE)
  {
    hide WordsOf, KernelShingles, Compute, ShingleSet, WindowHashes, ShingleHash;
    var s := CommonShingle(H, K, a, b, i);
    var v, j := ShingleWords(a, s);
    var w, k := ShingleWords(b, s);
    if |WordsOf(a)| >= SHINGLE_SIZE {
      WindowInSet(H, a, j);
      WindowInSet(H, b, k);
    }
  }

  lemma WindowInSet(H: Hasher, text: Bytes, start: nat)
    requires start + SHINGLE_SIZE <= |WordsOf(text)|
    ensures ShingleHash(H, WordsOf(text)[start..start + SHINGLE_SIZE]) in ShingleSet(H, text, SHINGLE_SIZE)
  {
    hide WordsOf, ShingleHash, ShingleSet;
    ShingleSetSpec(H, text, SHINGLE_SIZE);
    var hashes := WindowHashes(H, WordsOf(text), SHINGLE_SIZE);
    assert hashes[start] in hashes;
  }

  lemma NoWordsMax(H: Hasher, K: KeyedHasher, text: Bytes)
    requires WordsOf(text) == []
    ensures forall i :: 0 <= i < PERMUTATIONS ==> Compute(H, K, text)[i] == MAX
  {
  }

  lemma SameWordsSameSignature(H: Hasher, K: KeyedHasher, a: Bytes, b: Bytes)
    requires WordsOf(a) == WordsOf(b)
    ensures Compute(H, K, a) == Compute(H, K, b)
  {
  }
}
