/** LSH banding of the three fuzzy signatures, and why it never loses a match: in every case
    the differing components are too few to touch every band. */
module Banding {
  import opened Basics
  import opened Words

  type BandKey = (u16, u64)

  const MINHASH_BANDS: nat := 32
  const MINHASH_ROWS: nat := 4
  const HAMMING64_BANDS: nat := 8
  const ISCC_BANDS: nat := 5

  const ISCC_THRESHOLD: nat := 4
  const PERCEPTUAL_THRESHOLD: nat := 6
  const MINHASH_THRESHOLD_PPM: nat := 850_000

  type MinHash = s: seq<u64> | |s| == 128 witness seq(128, _ => 0)

  /** The first eight bytes of a hash as a little-endian word. */
  function First8(d: Digest): u64 {
    Pow256Values();
    FromLE(d[..8])
  }

  /** Little-endian bytes of a run of words. */
  function WordBytes(words: seq<u64>): (b: Bytes)
    ensures |b| == 8 * |words|
  {
    if words == [] then [] else ToLE(words[0], 8) + WordBytes(words[1..])
  }

  /** The band key of the b-th group of four permutations. */
  function MinhashKey(H: Hasher, sig: MinHash, b: nat): BandKey
    requires b < MINHASH_BANDS
  {
    (b, First8(H(WordBytes(sig[4 * b..4 * b + 4]))))
  }

  function BandMinhash(H: Hasher, sig: MinHash): (keys: seq<BandKey>)
    ensures |keys| == MINHASH_BANDS
  {
    seq(MINHASH_BANDS, b requires 0 <= b < MINHASH_BANDS => MinhashKey(H, sig, b))
  }

  function BandHamming64(hash: u64, offset: nat): (keys: seq<BandKey>)
    requires offset <= HAMMING64_BANDS
    ensures |keys| == HAMMING64_BANDS
  {
    seq(HAMMING64_BANDS, b requires 0 <= b < HAMMING64_BANDS => (offset + b, hash / Pow256(b) % 256))
  }

  function BandPerceptual(phash: u64, blockhash: u64): (keys: seq<BandKey>)
    ensures |keys| == 2 * HAMMING64_BANDS
  {
    BandHamming64(phash, 0) + BandHamming64(blockhash, HAMMING64_BANDS)
  }

  /** Where the b-th of the five byte ranges of an n-byte body starts. */
  function IsccCut(n: nat, b: nat): (c: nat)
    requires b <= ISCC_BANDS
    ensures c <= n && (b == 0 ==> c == 0) && (b == ISCC_BANDS ==> c == n)
  {
    b * n / ISCC_BANDS
  }

  function IsccRange(body: Bytes, b: nat): Bytes
    requires b < ISCC_BANDS
  {
    body[IsccCut(|body|, b)..IsccCut(|body|, b + 1)]
  }

  function IsccKey(H: Hasher, body: Bytes, b: nat): BandKey
    requires b < ISCC_BANDS
  {
    (b, First8(H(IsccRange(body, b))))
  }

  function BandIscc(H: Hasher, body: Bytes): (keys: seq<BandKey>)
    ensures |keys| == ISCC_BANDS
  {
    seq(ISCC_BANDS, b requires 0 <= b < ISCC_BANDS => IsccKey(H, body, b))
  }

  /** Eight bytes to a word, the last group padded with zero bytes. */
  function PackIsccBody(body: Bytes): (words: seq<u64>)
    ensures |words| == (|body| + 7) / 8
  {
    Pow256Values();
    if body == [] then []
    else if |body| < 8 then [FromLE(body + seq(8 - |body|, _ => 0))]
    else [FromLE(body[..8])] + PackIsccBody(body[8..])
  }

  // ------------------------------------------------------------------------
  // The loops
  // ------------------------------------------------------------------------

  /** `band_minhash`, with its scratch buffer. */
  method BandMinhashLoop(H: Hasher, sig: MinHash) returns (keys: seq<BandKey>)
    ensures keys == BandMinhash(H, sig)
  {
    hide First8, ToLE;
    keys := [];
    for b := 0 to MINHASH_BANDS
      invariant keys == BandMinhash(H, sig)[..b]
    {
      var start := b * MINHASH_ROWS;
      var rows := sig[start..start + MINHASH_ROWS];
      var buf: Bytes := [];
      for i := 0 to MINHASH_ROWS
        invariant buf + WordBytes(rows[i..]) == WordBytes(rows)
      {
        assert rows[i..][1..] == rows[i + 1..];
        buf := buf + ToLE(rows[i], 8);
      }
      assert buf == WordBytes(rows);
      keys := keys + [(b, First8(H(buf)))];
    }
  }

  method BandHamming64Loop(hash: u64, offset: nat) returns (keys: seq<BandKey>)
    requires offset <= HAMMING64_BANDS
    ensures keys == BandHamming64(hash, offset)
  {
    keys := [];
    for b := 0 to HAMMING64_BANDS
      invariant keys == BandHamming64(hash, offset)[..b]
    {
      var bandBits := hash / Pow256(b) % 256;
      keys := keys + [(offset + b, bandBits)];
    }
  }

  method BandIsccLoop(H: Hasher, body: Bytes) returns (keys: seq<BandKey>)
    ensures keys == BandIscc(H, body)
  {
    var n := |body|;
    keys := [];
    for b := 0 to ISCC_BANDS
      invariant keys == BandIscc(H, body)[..b]
    {
      var start, end := b * n / ISCC_BANDS, (b + 1) * n / ISCC_BANDS;
      assert body[start..end] == IsccRange(body, b);
      keys := keys + [(b, First8(H(body[start..end])))];
    }
  }

  // ------------------------------------------------------------------------
  // Counting
  // ------------------------------------------------------------------------

  /** How many positions agree. */
  function Matches<T(==)>(a: seq<T>, b: seq<T>): (m: nat)
    ensures m <= |a|
  {
    if a == [] || b == [] then 0 else (if a[0] == b[0] then 1 else 0) + Matches(a[1..], b[1..])
  }

  /** How many groups of r consecutive positions agree entirely. */
  function EqualChunks<T(==)>(r: nat, a: seq<T>, b: seq<T>): nat
    requires r > 0 && |a| == |b|
    decreases |a|
  {
    if |a| < r then 0
    else (if a[..r] == b[..r] then 1 else 0) + EqualChunks(r, a[r..], b[r..])
  }

  lemma {:induction false} MatchesAppend<T>(a: seq<T>, b: seq<T>, c: seq<T>, d: seq<T>)
    requires |a| == |b|
    ensures Matches(a + c, b + d) == Matches(a, b) + Matches(c, d)
    decreases |a|
  {
    if a == [] {
      assert a + c == c && b + d == d;
    } else {
      assert (a + c)[1..] == a[1..] + c && (b + d)[1..] == b[1..] + d;
      MatchesAppend(a[1..], b[1..], c, d);
    }
  }

  lemma {:induction false} MatchesAll<T>(a: seq<T>, b: seq<T>)
    requires |a| == |b|
    ensures Matches(a, b) == |a| <==> a == b
    decreases |a|
  {
    if a != [] {
      MatchesAll(a[1..], b[1..]);
      assert a == [a[0]] + a[1..] && b == [b[0]] + b[1..];
    }
  }

  /** The positions at which two sequences agree. */
  function Agreements<T(==)>(a: seq<T>, b: seq<T>): set<nat> {
    set i: nat | i < |a| && i < |b| && a[i] == b[i]
  }

  lemma AgreementsInFront<T>(a: seq<T>, b: seq<T>, n: nat)
    requires n + 1 == |a| == |b|
    ensures |Agreements(a, b)| == |Agreements(a[..n], b[..n])| + if a[n] == b[n] then 1 else 0
  {
    var front, all := Agreements(a[..n], b[..n]), Agreements(a, b);
    forall i: nat
      ensures i in all <==> i in front || (i == n && a[n] == b[n])
    {
    }
    assert n !in front;
    assert all == front + (if a[n] == b[n] then {n} else {});
  }

  lemma NothingAgrees<T>()
    ensures Agreements<T>([], []) == {} && Matches<T>([], []) == 0
  {
  }

  lemma MatchesOfOne<T>(x: T, y: T)
    ensures Matches([x], [y]) == if x == y then 1 else 0
  {
    assert [x][1..] == [] && [y][1..] == [];
  }

  lemma {:induction false} MatchesCounts<T>(a: seq<T>, b: seq<T>)
    requires |a| == |b|
    ensures Matches(a, b) == |Agreements(a, b)|
    decreases |a|
  {
    hide Matches, Agreements;
    if a == [] {
      NothingAgrees<T>();
    } else {
      var n := |a| - 1;
      MatchesCounts(a[..n], b[..n]);
      MatchesAppend(a[..n], b[..n], [a[n]], [b[n]]);
      MatchesOfOne(a[n], b[n]);
      assert a == a[..n] + [a[n]] && b == b[..n] + [b[n]];
      AgreementsInFront(a, b, n);
    }
  }

  lemma FirstChunk<T>(r: nat, chunks: nat, a: seq<T>, b: seq<T>)
    requires r > 0 && chunks > 0 && |a| == |b| == chunks * r
    ensures |a| >= r && |a[r..]| == |b[r..]| == (chunks - 1) * r
    ensures EqualChunks(r, a, b) == (if a[..r] == b[..r] then 1 else 0) + EqualChunks(r, a[r..], b[r..])
  {
    assert |a| == (chunks - 1) * r + r;
    assert (chunks - 1) * r >= 0;
  }

  lemma NoChunks<T>(r: nat, a: seq<T>, b: seq<T>)
    requires r > 0 && a == [] && b == []
    ensures EqualChunks(r, a, b) == 0 && Matches(a, b) == 0
  {
  }

  /** A mismatch spoils at most one chunk. */
  lemma {:induction false} MismatchesSpoilFewChunks<T>(r: nat, chunks: nat, a: seq<T>, b: seq<T>)
    requires r > 0 && |a| == |b| == chunks * r
    ensures chunks - EqualChunks(r, a, b) <= |a| - Matches(a, b)
    decreases chunks
  {
    hide Matches, EqualChunks;
    if chunks > 0 {
      FirstChunk(r, chunks, a, b);
      assert a == a[..r] + a[r..] && b == b[..r] + b[r..];
      MatchesAppend(a[..r], b[..r], a[r..], b[r..]);
      MatchesAll(a[..r], b[..r]);
      MismatchesSpoilFewChunks(r, chunks - 1, a[r..], b[r..]);
    } else {
      NoChunks(r, a, b);
    }
  }

  /** Word k of a packed body is its bytes 8k to 8k + 7, little-endian; the last may have fewer. */
  lemma {:induction false} PackedWords(body: Bytes, k: nat)
    requires 8 * k < |body|
    ensures PackIsccBody(body)[k] == FromLE(body[8 * k..if 8 * k + 8 <= |body| then 8 * k + 8 else |body|])
  {
    hide FromLE;
    if |body| < 8 {
      FromLEPadding(body, 8 - |body|);
      assert body[0..|body|] == body;
    } else if k == 0 {
      assert body[0..8] == body[..8];
    } else {
      PackedWords(body[8..], k - 1);
      var end := if 8 * k + 8 <= |body| then 8 * k + 8 else |body|;
      assert body[8..][8 * (k - 1)..end - 8] == body[8 * k..end];
    }
  }

  // ------------------------------------------------------------------------
  // What equal keys mean
  // ------------------------------------------------------------------------

  /** Two different inputs whose hashes agree in the eight bytes that keys keep. */
  predicate KeyCollision(H: Hasher, x: Bytes, y: Bytes) {
    x != y && FromLE(H(x)[..8]) == FromLE(H(y)[..8])
  }

  lemma {:induction false} WordBytesInjective(a: seq<u64>, b: seq<u64>)
    requires |a| == |b| && WordBytes(a) == WordBytes(b)
    ensures a == b
    decreases |a|
  {
    hide ToLE, FromLE;
    if a != [] {
      Pow256Values();
      FromToLE(a[0], 8);
      FromToLE(b[0], 8);
      assert WordBytes(a)[..8] == ToLE(a[0], 8) && WordBytes(b)[..8] == ToLE(b[0], 8);
      assert WordBytes(a)[8..] == WordBytes(a[1..]) && WordBytes(b)[8..] == WordBytes(b[1..]);
      WordBytesInjective(a[1..], b[1..]);
      assert a == [a[0]] + a[1..] && b == [b[0]] + b[1..];
    }
  }

  /** Signatures share a key exactly at the bands in which their four components are equal, or
      hash to the same eight bytes. */
  lemma MinhashKeysMean(H: Hasher, a: MinHash, b: MinHash, j: nat, k: nat)
    requires j < 32 && k < 32
    ensures BandMinhash(H, a)[j] == BandMinhash(H, b)[k] <==>
              && j == k
              && (a[4 * k..4 * k + 4] == b[4 * k..4 * k + 4]
                  || KeyCollision(H, WordBytes(a[4 * k..4 * k + 4]), WordBytes(b[4 * k..4 * k + 4])))
  {
    hide WordBytes, FromLE;
    if j == k && WordBytes(a[4 * k..4 * k + 4]) == WordBytes(b[4 * k..4 * k + 4]) {
      WordBytesInjective(a[4 * k..4 * k + 4], b[4 * k..4 * k + 4]);
    }
  }

  /** Words share a key exactly where they have the same byte. */
  lemma Hamming64KeysMean(x: u64, y: u64, offset: nat, j: nat, k: nat)
    requires offset <= 8 && j < 8 && k < 8
    ensures BandHamming64(x, offset)[j] == BandHamming64(y, offset)[k] <==> j == k && ToLE(x, 8)[k] == ToLE(y, 8)[k]
    ensures BandHamming64(x, offset)[j].0 == offset + j
  {
    hide ToLE;
    ToLEAt(x, 8, k);
    ToLEAt(y, 8, k);
  }

  /** Image signatures share a key exactly where the same hash of both has the same byte. */
  lemma PerceptualKeysMean(p: u64, q: u64, p': u64, q': u64, j: nat, k: nat)
    requires j < 16 && k < 16
    ensures BandPerceptual(p, q)[j] == BandPerceptual(p', q')[k] <==>
              j == k && if k < 8 then ToLE(p, 8)[k] == ToLE(p', 8)[k] else ToLE(q, 8)[k - 8] == ToLE(q', 8)[k - 8]
    ensures BandPerceptual(p, q)[j].0 == j
  {
    hide ToLE, BandHamming64;
    if j < 8 {
      Hamming64KeysMean(p, p', 0, j, if k < 8 then k else 0);
    } else {
      Hamming64KeysMean(q, q', 8, j - 8, if k >= 8 then k - 8 else 0);
    }
    if k < 8 {
      Hamming64KeysMean(p', p', 0, k, k);
    } else {
      Hamming64KeysMean(q', q', 8, k - 8, k - 8);
    }
  }

  /** Bodies of one length share a key exactly where the same fifth of them is equal, or hashes to
      the same eight bytes. */
  lemma IsccKeysMean(H: Hasher, a: Bytes, b: Bytes, j: nat, k: nat)
    requires |a| == |b| && j < 5 && k < 5
    ensures k * |a| / 5 <= (k + 1) * |a| / 5 <= |a|
    ensures var x, y := a[k * |a| / 5..(k + 1) * |a| / 5], b[k * |a| / 5..(k + 1) * |a| / 5];
            BandIscc(H, a)[j] == BandIscc(H, b)[k] <==> j == k && (x == y || KeyCollision(H, x, y))
  {
    hide FromLE;
    assert j == k ==> IsccRange(a, k) == a[k * |a| / 5..(k + 1) * |a| / 5];
    assert j == k ==> IsccRange(b, k) == b[k * |a| / 5..(k + 1) * |a| / 5];
  }

  // ------------------------------------------------------------------------
  // MinHash: at least 13 shared band keys at the threshold
  // ------------------------------------------------------------------------

  /** `minhash_jaccard_ppm`. */
  function JaccardPpm(a: seq<u64>, b: seq<u64>): nat {
    Matches(a, b) * 1_000_000 / 128
  }

  /** The chunk at 4k is the band k, and the chunks behind it start at 4(k + 1). */
  lemma ChunkOfBand(s: MinHash, k: nat)
    requires k < MINHASH_BANDS
    ensures s[4 * k..][..4] == s[4 * k..4 * k + 4] && s[4 * k..][4..] == s[4 * (k + 1)..]
  {
  }

  lemma EqualBandsShareKey(H: Hasher, a: MinHash, b: MinHash, k: nat)
    requires k < MINHASH_BANDS && a[4 * k..4 * k + 4] == b[4 * k..4 * k + 4]
    ensures BandMinhash(H, a)[k] == BandMinhash(H, b)[k]
  {
    hide WordBytes, First8;
  }

  lemma MatchesFront<T>(p: seq<T>, q: seq<T>, k: nat)
    requires k < |p| == |q|
    ensures Matches(p[k..], q[k..]) == (if p[k] == q[k] then 1 else 0) + Matches(p[k + 1..], q[k + 1..])
  {
    assert p[k..][1..] == p[k + 1..] && q[k..][1..] == q[k + 1..];
  }

  lemma {:induction false} EqualChunksShareKeys(H: Hasher, a: MinHash, b: MinHash, k: nat)
    requires k <= MINHASH_BANDS
    ensures EqualChunks(4, a[4 * k..], b[4 * k..]) <= Matches(BandMinhash(H, a)[k..], BandMinhash(H, b)[k..])
    decreases MINHASH_BANDS - k
  {
    hide EqualChunks, Matches, BandMinhash;
    if k == MINHASH_BANDS {
      NoChunks(4, a[4 * k..], b[4 * k..]);
    } else {
      EqualChunksShareKeys(H, a, b, k + 1);
      ChunkOfBand(a, k);
      ChunkOfBand(b, k);
      FirstChunk(4, MINHASH_BANDS - k, a[4 * k..], b[4 * k..]);
      MatchesFront(BandMinhash(H, a), BandMinhash(H, b), k);
      if a[4 * k..4 * k + 4] == b[4 * k..4 * k + 4] {
        EqualBandsShareKey(H, a, b, k);
      }
    }
  }

  /** Recall is exact, not probabilistic: 850000 ppm leaves at most 19 mismatches for 32 bands. */
  lemma MinhashSharesThirteenBands(H: Hasher, a: MinHash, b: MinHash)
    requires JaccardPpm(a, b) >= MINHASH_THRESHOLD_PPM
    ensures Matches(BandMinhash(H, a), BandMinhash(H, b)) >= 13
  {
    MismatchesSpoilFewChunks(4, 32, a, b);
    EqualChunksShareKeys(H, a, b, 0);
    assert a[4 * 0..] == a && b[4 * 0..] == b;
    assert BandMinhash(H, a)[0..] == BandMinhash(H, a) && BandMinhash(H, b)[0..] == BandMinhash(H, b);
  }

  // ------------------------------------------------------------------------
  // Shared keys
  // ------------------------------------------------------------------------

  ghost predicate ShareKey(a: seq<BandKey>, b: seq<BandKey>) {
    exists k :: k in a && k in b
  }

  lemma {:induction false} SomeMatch<T>(a: seq<T>, b: seq<T>) returns (i: nat)
    requires |a| == |b| && Matches(a, b) > 0
    ensures i < |a| && a[i] == b[i]
    decreases |a|
  {
    if a[0] == b[0] {
      i := 0;
    } else {
      i := SomeMatch(a[1..], b[1..]);
      i := i + 1;
    }
  }

  lemma MinhashRecall(H: Hasher, a: MinHash, b: MinHash)
    requires JaccardPpm(a, b) >= MINHASH_THRESHOLD_PPM
    ensures ShareKey(BandMinhash(H, a), BandMinhash(H, b))
  {
    MinhashSharesThirteenBands(H, a, b);
    var i := SomeMatch(BandMinhash(H, a), BandMinhash(H, b));
    assert BandMinhash(H, a)[i] in BandMinhash(H, b);
  }

  // ------------------------------------------------------------------------
  // Perceptual: distance at most 7 leaves one of 8 bytes intact
  // ------------------------------------------------------------------------

  lemma {:induction false} FewBitsSpareAWord(a: seq<nat>, b: seq<nat>) returns (i: nat)
    requires |a| == |b| && Hamming(a, b) < |a|
    ensures i < |a| && a[i] == b[i]
    decreases |a|
  {
    BitDistanceZero(a[0], b[0]);
    if a[0] == b[0] {
      i := 0;
    } else {
      i := FewBitsSpareAWord(a[1..], b[1..]);
      i := i + 1;
    }
  }

  lemma Hamming64Recall(x: u64, y: u64, offset: nat)
    requires BitDistance(x, y) < HAMMING64_BANDS && offset <= HAMMING64_BANDS
    ensures ShareKey(BandHamming64(x, offset), BandHamming64(y, offset))
  {
    Pow256Values();
    FromToLE(x, 8);
    FromToLE(y, 8);
    HammingLE(ToLE(x, 8), ToLE(y, 8));
    var i := FewBitsSpareAWord(ToLE(x, 8), ToLE(y, 8));
    ToLEAt(x, 8, i);
    ToLEAt(y, 8, i);
    assert BandHamming64(x, offset)[i] == BandHamming64(y, offset)[i];
    assert BandHamming64(x, offset)[i] in BandHamming64(y, offset);
  }

  /** Either hash within the threshold is enough. */
  lemma PerceptualRecall(p: u64, q: u64, p': u64, q': u64)
    requires BitDistance(p, p') <= PERCEPTUAL_THRESHOLD || BitDistance(q, q') <= PERCEPTUAL_THRESHOLD
    ensures ShareKey(BandPerceptual(p, q), BandPerceptual(p', q'))
  {
    if BitDistance(p, p') <= PERCEPTUAL_THRESHOLD {
      Hamming64Recall(p, p', 0);
      var k :| k in BandHamming64(p, 0) && k in BandHamming64(p', 0);
      assert k in BandPerceptual(p, q) && k in BandPerceptual(p', q');
    } else {
      Hamming64Recall(q, q', HAMMING64_BANDS);
      var k :| k in BandHamming64(q, HAMMING64_BANDS) && k in BandHamming64(q', HAMMING64_BANDS);
      assert k in BandPerceptual(p, q) && k in BandPerceptual(p', q');
    }
  }

  // ------------------------------------------------------------------------
  // ISCC: distance at most 4 leaves one of 5 byte ranges intact
  // ------------------------------------------------------------------------

  /** If each of the first k ranges differs, so do at least k bits before the k-th cut. */
  lemma {:induction false} SpoiledRangesCostBits(a: Bytes, b: Bytes, k: nat)
    requires |a| == |b| && k <= ISCC_BANDS
    requires forall i: nat :: i < k ==> IsccRange(a, i) != IsccRange(b, i)
    ensures Hamming(a[..IsccCut(|a|, k)], b[..IsccCut(|a|, k)]) >= k
  {
    if k > 0 {
      SpoiledRangesCostBits(a, b, k - 1);
      var i, j := IsccCut(|a|, k - 1), IsccCut(|a|, k);
      assert a[..j] == a[..i] + a[i..j] && b[..j] == b[..i] + b[i..j];
      HammingAppend(a[..i], b[..i], a[i..j], b[i..j]);
      HammingZero(a[i..j], b[i..j]);
      assert IsccRange(a, k - 1) != IsccRange(b, k - 1);
    }
  }

  lemma SomeRangeIntact(a: Bytes, b: Bytes) returns (i: nat)
    requires |a| == |b| && Hamming(a, b) <= ISCC_THRESHOLD
    ensures i < ISCC_BANDS && IsccRange(a, i) == IsccRange(b, i)
  {
    assert a[..IsccCut(|a|, ISCC_BANDS)] == a && b[..IsccCut(|a|, ISCC_BANDS)] == b;
    if forall k: nat :: k < ISCC_BANDS ==> IsccRange(a, k) != IsccRange(b, k) {
      SpoiledRangesCostBits(a, b, ISCC_BANDS);
    }
    i :| i < ISCC_BANDS && IsccRange(a, i) == IsccRange(b, i);
  }

  lemma IsccRecall(H: Hasher, a: Bytes, b: Bytes)
    requires |a| == |b| && Hamming(a, b) <= ISCC_THRESHOLD
    ensures ShareKey(BandIscc(H, a), BandIscc(H, b))
  {
    var i := SomeRangeIntact(a, b);
    assert BandIscc(H, a)[i] == IsccKey(H, a, i) && BandIscc(H, b)[i] == IsccKey(H, b, i);
    assert BandIscc(H, a)[i] in BandIscc(H, b);
  }

  /** Distance over packed bodies of equal length is distance over the bodies. */
  lemma {:induction false} HammingOfPacked(a: Bytes, b: Bytes)
    requires |a| == |b|
    ensures Hamming(PackIsccBody(a), PackIsccBody(b)) == Hamming(a, b)
    decreases |a|
  {
    hide FromLE, BitDistance;
    if a == [] {
    } else if |a| < 8 {
      FromLEPadding(a, 8 - |a|);
      FromLEPadding(b, 8 - |b|);
      HammingLE(a, b);
      assert PackIsccBody(a)[1..] == [] && PackIsccBody(b)[1..] == [];
    } else {
      HammingLE(a[..8], b[..8]);
      HammingOfPacked(a[8..], b[8..]);
      HammingAppend(a[..8], b[..8], a[8..], b[8..]);
      assert a == a[..8] + a[8..] && b == b[..8] + b[8..];
      assert PackIsccBody(a)[1..] == PackIsccBody(a[8..]) && PackIsccBody(b)[1..] == PackIsccBody(b[8..]);
    }
  }
}
