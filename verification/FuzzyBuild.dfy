/** Building the three sidecars from a sealed corpus. Fingerprinting and ISCC decoding are
    parameters: deterministic functions of the leaf bytes. */
module FuzzyBuild {
  import opened Basics
  import opened Words
  import opened Hex
  import opened Merkle
  import opened Manifest
  import opened Banding
  import opened Sidecar
  import opened SidecarFormat

  datatype ImageFingerprint = ImageFingerprint(phash: Text, blockhash: Text)

  datatype FingerprintBundle = FingerprintBundle(
    text: Option<MinHash>,
    image: Option<ImageFingerprint>,
    iscc: Option<string>)

  /** A text fingerprint carries a MinHash and an ISCC, an image one two hashes and an ISCC;
      either may fail on the leaf's bytes. */
  datatype Engine = Engine(
    hash: Hasher,
    fingerprintText: Bytes -> Option<(MinHash, string)>,
    fingerprintImage: Bytes -> Option<(ImageFingerprint, string)>,
    isccDecode: string -> Option<Bytes>)

  function TextBundle(eng: Engine, bytes: Bytes): Option<FingerprintBundle> {
    match eng.fingerprintText(bytes)
    case None => None
    case Some(f) => Some(FingerprintBundle(Some(f.0), None, Some(f.1)))
  }

  function ImageBundle(eng: Engine, bytes: Bytes): Option<FingerprintBundle> {
    match eng.fingerprintImage(bytes)
    case None => None
    case Some(f) => Some(FingerprintBundle(None, Some(f.0), Some(f.1)))
  }

  // ------------------------------------------------------------------------
  // Perceptual hashes in hex
  // ------------------------------------------------------------------------

  /** `u8::from_str_radix(_, 16)` on two characters, which also reads a plus sign. */
  function HexByte(c: u8, d: u8): Option<u8> {
    if HexToNibble(d).Err? then None
    else if c == '+' as int then Some(HexToNibble(d).value)
    else if HexToNibble(c).Err? then None
    else Some(HexToNibble(c).value * 16 + HexToNibble(d).value)
  }

  function HexBytes(t: Text): (r: Option<Bytes>)
    requires |t| % 2 == 0
    ensures r.Some? ==> |r.value| == |t| / 2
  {
    if t == [] then Some([])
    else if HexByte(t[0], t[1]).None? then None
    else
      var rest := HexBytes(t[2..]);
      if rest.None? then None else Some([HexByte(t[0], t[1]).value] + rest.value)
  }

  /** Sixteen hex characters to eight bytes. */
  function DecodeHex8(t: Text): (r: Option<Bytes>)
    ensures r.Some? ==> |r.value| == 8
  {
    if |t| != 16 then None else HexBytes(t)
  }

  /** `perceptual_hex_to_u64`, big-endian. */
  function PerceptualWord(t: Text): Option<u64> {
    Pow256Values();
    match DecodeHex8(t)
    case None => None
    case Some(b) => Some(FromBE(b))
  }

  /** Pair k of a text: two hex digits, of which the first may be a plus sign instead. */
  predicate IsHexPair(t: Text, k: nat)
    requires 2 * k + 1 < |t|
  {
    (IsHexDigit(t[2 * k]) || t[2 * k] == '+' as int) && IsHexDigit(t[2 * k + 1])
  }

  /** What pair k decodes to, a plus sign standing for zero. */
  function PairValue(t: Text, k: nat): Result<Bytes, HexError>
    requires 2 * k + 1 < |t|
  {
    Decode([if t[2 * k] == '+' as int then '0' as int else t[2 * k], t[2 * k + 1]])
  }

  lemma TwoDigits(c: u8, d: u8)
    requires HexToNibble(c).Ok? && HexToNibble(d).Ok?
    ensures Decode([c, d]) == Ok([HexToNibble(c).value * 16 + HexToNibble(d).value])
  {
    var t: Text, x: Bytes := [c, d], [HexToNibble(c).value * 16 + HexToNibble(d).value];
    assert t[2..] == [] && x + [] == x;
    assert DecodePairs(t[2..]) == Ok([]);
  }

  lemma PairIsRead(t: Text)
    requires |t| >= 2
    ensures HexByte(t[0], t[1]).Some? <==> IsHexPair(t, 0)
    ensures HexByte(t[0], t[1]).Some? ==> PairValue(t, 0) == Ok([HexByte(t[0], t[1]).value])
  {
    if IsHexPair(t, 0) {
      TwoDigits(if t[0] == '+' as int then '0' as int else t[0], t[1]);
    }
  }

  /** A hash in hex decodes exactly if it is pairs of hex digits, byte k being what pair k
      decodes to. */
  lemma {:induction false} HexBytesMeans(t: Text)
    requires |t| % 2 == 0
    ensures HexBytes(t).Some? <==> forall k: nat :: k < |t| / 2 ==> IsHexPair(t, k)
    ensures HexBytes(t).Some? ==> forall k: nat :: k < |t| / 2 ==> PairValue(t, k) == Ok([HexBytes(t).value[k]])
  {
    hide HexByte, Decode;
    if t != [] {
      PairIsRead(t);
      HexBytesMeans(t[2..]);
      forall k: nat | 0 < k < |t| / 2
        ensures IsHexPair(t, k) <==> IsHexPair(t[2..], k - 1)
        ensures PairValue(t, k) == PairValue(t[2..], k - 1)
      {
      }
      if forall k: nat :: k < |t| / 2 ==> IsHexPair(t, k) {
        forall k: nat | k < |t[2..]| / 2
          ensures IsHexPair(t[2..], k)
        {
          assert IsHexPair(t, k + 1);
        }
      }
    }
  }

  lemma Hex8Means(t: Text)
    ensures DecodeHex8(t).Some? <==> |t| == 16 && forall k: nat :: k < 8 ==> IsHexPair(t, k)
    ensures DecodeHex8(t).Some? ==> forall k: nat :: k < 8 ==> PairValue(t, k) == Ok([DecodeHex8(t).value[k]])
  {
    hide IsHexPair, PairValue;
    if |t| == 16 {
      HexBytesMeans(t);
    }
  }

  lemma {:induction false} HexBytesOfEncode(b: Bytes)
    ensures HexBytes(Encode(b)) == Some(b)
  {
    if b != [] {
      HexBytesOfEncode(b[1..]);
      DigitsOfByte(b[0]);
      assert Encode(b)[2..] == Encode(b[1..]);
      assert b == [b[0]] + b[1..];
    }
  }

  // ------------------------------------------------------------------------
  // What a leaf contributes to each sub-index
  // ------------------------------------------------------------------------

  /** Signature and band keys. */
  type Contribution = Option<(seq<u64>, seq<BandKey>)>

  function MinhashContribution(eng: Engine, b: FingerprintBundle): Contribution {
    match b.text
    case None => None
    case Some(m) => Some((m, BandMinhash(eng.hash, m)))
  }

  function PerceptualContribution(b: FingerprintBundle): Contribution {
    match b.image
    case None => None
    case Some(img) =>
      match (PerceptualWord(img.phash), PerceptualWord(img.blockhash))
      case (Some(p), Some(q)) => Some(([p, q], BandPerceptual(p, q)))
      case _ => None
  }

  function IsccContribution(eng: Engine, b: FingerprintBundle): Contribution {
    match b.iscc
    case None => None
    case Some(code) =>
      match eng.isccDecode(code)
      case None => None
      case Some(body) => Some((PackIsccBody(body), BandIscc(eng.hash, body)))
  }

  function ContributionOf(eng: Engine, kind: SubIndexKind, b: FingerprintBundle): Contribution {
    match kind
    case Minhash => MinhashContribution(eng, b)
    case Perceptual => PerceptualContribution(b)
    case Iscc => IsccContribution(eng, b)
  }

  predicate Fingerprintable(e: ManifestEntry) {
    e.modality.Text? || e.modality.Image?
  }

  /** The builder's view of a leaf: a failed fingerprint or another modality gives nothing. */
  function BuilderBundle(eng: Engine, cas: Cas, e: ManifestEntry): Option<FingerprintBundle>
    requires Fingerprintable(e) ==> e.documentId in cas
  {
    match e.modality
    case Text => TextBundle(eng, cas[e.documentId])
    case Image => ImageBundle(eng, cas[e.documentId])
    case _ => None
  }

  function LeafContribution(eng: Engine, cas: Cas, kind: SubIndexKind, e: ManifestEntry): Contribution
    requires Fingerprintable(e) ==> e.documentId in cas
  {
    match BuilderBundle(eng, cas, e)
    case None => None
    case Some(b) => ContributionOf(eng, kind, b)
  }

  // ------------------------------------------------------------------------
  // Accumulating
  // ------------------------------------------------------------------------

  datatype Accumulator = Accumulator(signatures: seq<SigEntry>, buckets: seq<Bucket>)

  /** `entry(key).or_default().push(row)`. */
  function PushRow(buckets: seq<Bucket>, key: BandKey, row: u64): seq<Bucket> {
    var present := Lookup(buckets, key);
    Put(buckets, key, (if present.Some? then present.value else []) + [row])
  }

  function PushRows(buckets: seq<Bucket>, keys: seq<BandKey>, row: u64): seq<Bucket>
    decreases |keys|
  {
    if keys == [] then buckets else PushRows(PushRow(buckets, keys[0], row), keys[1..], row)
  }

  function AddLeaf(acc: Accumulator, row: u64, c: Contribution): Accumulator {
    match c
    case None => acc
    case Some(x) => Accumulator(acc.signatures + [SigEntry(row, x.0)], PushRows(acc.buckets, x.1, row))
  }

  method AddLeafLoop(acc: Accumulator, row: u64, c: Contribution) returns (r: Accumulator)
    ensures r == AddLeaf(acc, row, c)
  {
    if c.None? {
      return acc;
    }
    var (sig, keys) := c.value;
    var buckets := acc.buckets;
    for i := 0 to |keys|
      invariant PushRows(buckets, keys[i..], row) == PushRows(acc.buckets, keys, row)
    {
      assert keys[i..][1..] == keys[i + 1..];
      buckets := PushRow(buckets, keys[i], row);
    }
    r := Accumulator(acc.signatures + [SigEntry(row, sig)], buckets);
  }

  ghost predicate Readable(cas: Cas, entries: seq<ManifestEntry>) {
    forall i :: 0 <= i < |entries| && Fingerprintable(entries[i]) ==> entries[i].documentId in cas
  }

  /** The accumulator of one kind after the first n rows. */
  function Accumulated(eng: Engine, cas: Cas, kind: SubIndexKind, entries: seq<ManifestEntry>, n: nat): Accumulator
    requires Readable(cas, entries) && n <= |entries| < 0x1_0000_0000_0000_0000
  {
    if n == 0 then Accumulator([], [])
    else AddLeaf(Accumulated(eng, cas, kind, entries, n - 1), n - 1, LeafContribution(eng, cas, kind, entries[n - 1]))
  }

  function SigWidth(kind: SubIndexKind, acc: Accumulator): u16 {
    match kind
    case Minhash => 128
    case Perceptual => 2
    case Iscc => if acc.signatures == [] then 0 else |acc.signatures[0].sig| % 0x1_0000
  }

  function BandCount(kind: SubIndexKind): u16 {
    match kind case Minhash => 32 case Perceptual => 16 case Iscc => 5
  }

  function RowsOrBits(kind: SubIndexKind): u16 {
    match kind case Minhash => 4 case Perceptual => 8 case Iscc => 0
  }

  function IndexOf(kind: SubIndexKind, root: Digest, acc: Accumulator): Result<FuzzyIndex, IndexError> {
    FromParts(kind, root, SigWidth(kind, acc), BandCount(kind), RowsOrBits(kind), acc.signatures, acc.buckets)
  }

  /** The index of one kind that the builder writes. */
  function BuiltIndex(eng: Engine, cas: Cas, kind: SubIndexKind, entries: seq<ManifestEntry>)
    : Result<FuzzyIndex, IndexError>
    requires Readable(cas, entries) && |entries| < 0x1_0000_0000_0000_0000
  {
    IndexOf(kind, MTH(eng.hash, DocumentIds(entries)), Accumulated(eng, cas, kind, entries, |entries|))
  }

  /** The header of a built index: the manifest's root, 128 words in 32 bands of 4 for MinHash, two
      words in 16 bands of 8 bits for perceptual hashes, five bands for ISCC, whose width is that
      of its first signature. */
  lemma BuiltHeader(eng: Engine, cas: Cas, kind: SubIndexKind, entries: seq<ManifestEntry>)
    requires Readable(cas, entries) && |entries| < 0x1_0000_0000_0000_0000
    requires BuiltIndex(eng, cas, kind, entries).Ok?
    ensures var idx := BuiltIndex(eng, cas, kind, entries).value;
            && idx.kind == kind && idx.bindingRoot == MTH(eng.hash, DocumentIds(entries))
            && match kind
               case Minhash => (idx.sigWidth, idx.bands, idx.rowsOrBits) == (128, 32, 4)
               case Perceptual => (idx.sigWidth, idx.bands, idx.rowsOrBits) == (2, 16, 8)
               case Iscc =>
                 && (idx.bands, idx.rowsOrBits) == (5, 0)
                 && ((forall r :: 0 <= r < |entries| ==> IsccWidth(eng, cas, entries[r]).None?) ==> idx.sigWidth == 0)
                 && (forall r :: 0 <= r < |entries| && IsccWidth(eng, cas, entries[r]).Some? ==>
                       IsccWidth(eng, cas, entries[r]) == Some(idx.sigWidth))
  {
    hide LeafContribution, PushRows;
    var acc := Accumulated(eng, cas, kind, entries, |entries|);
    AccumulatedSpec(eng, cas, kind, entries, |entries|);
    FromPartsSpec(kind, MTH(eng.hash, DocumentIds(entries)), SigWidth(kind, acc), BandCount(kind), RowsOrBits(kind),
                  acc.signatures, acc.buckets);
    assert forall r: nat :: r < |entries| && LeafContribution(eng, cas, kind, entries[r]).Some? ==>
             SigEntry(r, LeafContribution(eng, cas, kind, entries[r]).value.0) in acc.signatures;
    if kind.Iscc? && acc.signatures != [] {
      assert acc.signatures[0] in acc.signatures;
      assert IsccWidth(eng, cas, entries[acc.signatures[0].row]).Some?;
    }
  }

  /** Two rows contribute ISCC signatures of different widths, or one a width of 2^16 words. */
  ghost predicate IsccWidthsClash(eng: Engine, cas: Cas, entries: seq<ManifestEntry>)
    requires Readable(cas, entries)
  {
    || (exists i, j :: 0 <= i < j < |entries| && IsccWidth(eng, cas, entries[i]).Some?
                       && IsccWidth(eng, cas, entries[j]).Some?
                       && IsccWidth(eng, cas, entries[i]) != IsccWidth(eng, cas, entries[j]))
    || (exists i :: 0 <= i < |entries| && IsccWidth(eng, cas, entries[i]).Some?
                    && IsccWidth(eng, cas, entries[i]).value >= 0x1_0000)
  }

  /** The number of words a leaf's ISCC body packs to, if it contributes one. */
  function IsccWidth(eng: Engine, cas: Cas, e: ManifestEntry): Option<nat>
    requires Fingerprintable(e) ==> e.documentId in cas
  {
    var c := LeafContribution(eng, cas, Iscc, e);
    if c.None? then None else Some(|c.value.0|)
  }

  datatype BuildError = LeafUnreadable(id: Digest) | Index(error: IndexError)

  /** The accumulator after all rows. */
  function Gathered(eng: Engine, cas: Cas, kind: SubIndexKind, entries: seq<ManifestEntry>): Accumulator
    requires Readable(cas, entries) && |entries| < 0x1_0000_0000_0000_0000
  {
    Accumulated(eng, cas, kind, entries, |entries|)
  }

  /** The pass over the rows: one read and one fingerprint per leaf, routed to every kind. */
  method GatherAll(eng: Engine, cas: Cas, entries: seq<ManifestEntry>)
    returns (missing: Option<Digest>, mh: Accumulator, pc: Accumulator, ic: Accumulator)
    requires |entries| < 0x1_0000_0000_0000_0000
    ensures missing.None? <==> Readable(cas, entries)
    ensures missing.None? ==>
              && mh == Gathered(eng, cas, Minhash, entries)
              && pc == Gathered(eng, cas, Perceptual, entries)
              && ic == Gathered(eng, cas, Iscc, entries)
  {
    mh, pc, ic := Accumulator([], []), Accumulator([], []), Accumulator([], []);
    for row := 0 to |entries|
      invariant Readable(cas, entries[..row])
      invariant mh == Gathered(eng, cas, Minhash, entries[..row])
      invariant pc == Gathered(eng, cas, Perceptual, entries[..row])
      invariant ic == Gathered(eng, cas, Iscc, entries[..row])
    {
      var e := entries[row];
      if Fingerprintable(e) && e.documentId !in cas {
        return Some(e.documentId), mh, pc, ic;
      }
      GatheredNext(eng, cas, Minhash, entries, row);
      GatheredNext(eng, cas, Perceptual, entries, row);
      GatheredNext(eng, cas, Iscc, entries, row);
      var bundle := BuilderBundle(eng, cas, e);
      if bundle.Some? {
        mh := AddLeafLoop(mh, row, MinhashContribution(eng, bundle.value));
        pc := AddLeafLoop(pc, row, PerceptualContribution(bundle.value));
        ic := AddLeafLoop(ic, row, IsccContribution(eng, bundle.value));
      }
    }
    assert entries[..|entries|] == entries;
    missing := None;
  }

  lemma GatheredNext(eng: Engine, cas: Cas, kind: SubIndexKind, entries: seq<ManifestEntry>, row: nat)
    requires row < |entries| < 0x1_0000_0000_0000_0000 && Readable(cas, entries[..row])
    requires Fingerprintable(entries[row]) ==> entries[row].documentId in cas
    ensures Readable(cas, entries[..row + 1])
    ensures Gathered(eng, cas, kind, entries[..row + 1])
         == AddLeaf(Gathered(eng, cas, kind, entries[..row]), row, LeafContribution(eng, cas, kind, entries[row]))
  {
    assert entries[..row + 1] == entries[..row] + [entries[row]];
    AccumulatedPrefix(eng, cas, kind, entries[..row], entries[..row + 1], row);
  }

  /** One sidecar assembled and printed. */
  method WriteSidecar(H: Hasher, kind: SubIndexKind, root: Digest, acc: Accumulator)
    returns (r: Result<Bytes, IndexError>)
    ensures r.Ok? <==> IndexOf(kind, root, acc).Ok?
    ensures r.Ok? ==> r.value == ToBytes(H, IndexOf(kind, root, acc).value)
    ensures r.Err? ==> IndexOf(kind, root, acc) == Err(r.error)
  {
    var idx :- FromPartsLoop(kind, root, SigWidth(kind, acc), BandCount(kind), RowsOrBits(kind), acc.signatures,
                             acc.buckets);
    var bytes := ToBytesLoop(H, idx);
    r := Ok(bytes);
  }

  /** `build_all`. The sidecars are written one after the other. An unreadable leaf leaves all
      as they were; the only other error, of ISCC widths, leaves that sidecar as it was and the
      other two written. */
  method BuildAll(eng: Engine, cas: Cas, entries: seq<ManifestEntry>, previous: map<SubIndexKind, Bytes>)
    returns (error: Option<BuildError>, sidecars: map<SubIndexKind, Bytes>)
    requires |entries| < 0x1_0000_0000_0000_0000
    ensures !Readable(cas, entries) <==> error.Some? && error.value.LeafUnreadable?
    ensures !Readable(cas, entries) ==> sidecars == previous
    ensures Readable(cas, entries) && error.None? ==>
              forall kind :: BuiltIndex(eng, cas, kind, entries).Ok? && kind in sidecars
                             && sidecars[kind] == ToBytes(eng.hash, BuiltIndex(eng, cas, kind, entries).value)
    ensures Readable(cas, entries) ==> (error.Some? <==> IsccWidthsClash(eng, cas, entries))
    ensures Readable(cas, entries) && error.Some? ==>
              && BuiltIndex(eng, cas, Iscc, entries).Err?
              && error.value == Index(BuiltIndex(eng, cas, Iscc, entries).error)
              && BuiltIndex(eng, cas, Minhash, entries).Ok? && BuiltIndex(eng, cas, Perceptual, entries).Ok?
              && sidecars == previous[Minhash := ToBytes(eng.hash, BuiltIndex(eng, cas, Minhash, entries).value)]
                                     [Perceptual := ToBytes(eng.hash, BuiltIndex(eng, cas, Perceptual, entries).value)]
  {
    hide ToBytes, FromParts, Accumulated, IsccWidthsClash;
    sidecars := previous;
    var root := MerkleRoot(eng.hash, DocumentIds(entries));
    var missing, mh, pc, ic := GatherAll(eng, cas, entries);
    if missing.Some? {
      return Some(LeafUnreadable(missing.value)), sidecars;
    }
    var m := WriteSidecar(eng.hash, Minhash, root, mh);
    if m.Err? {
      error := Some(Index(m.error));
      FixedWidthsFit(eng, cas, Minhash, entries);
      return;
    }
    sidecars := sidecars[Minhash := m.value];
    var p := WriteSidecar(eng.hash, Perceptual, root, pc);
    if p.Err? {
      error := Some(Index(p.error));
      FixedWidthsFit(eng, cas, Perceptual, entries);
      return;
    }
    sidecars := sidecars[Perceptual := p.value];
    WidthErrors(eng, cas, entries);
    var i := WriteSidecar(eng.hash, Iscc, root, ic);
    if i.Err? {
      return Some(Index(i.error)), sidecars;
    }
    sidecars := sidecars[Iscc := i.value];
    forall kind
      ensures BuiltIndex(eng, cas, kind, entries).Ok? && kind in sidecars
              && sidecars[kind] == ToBytes(eng.hash, BuiltIndex(eng, cas, kind, entries).value)
    {
      match kind
      case Minhash => assert sidecars[Minhash] == m.value;
      case Perceptual => assert sidecars[Perceptual] == p.value;
      case Iscc => assert sidecars[Iscc] == i.value;
    }
    error := None;
  }

  lemma {:induction false} AccumulatedPrefix(eng: Engine, cas: Cas, kind: SubIndexKind,
                                             a: seq<ManifestEntry>, b: seq<ManifestEntry>, n: nat)
    requires Readable(cas, a) && Readable(cas, b) && n <= |a| <= |b| < 0x1_0000_0000_0000_0000
    requires b[..|a|] == a
    ensures Accumulated(eng, cas, kind, a, n) == Accumulated(eng, cas, kind, b, n)
    decreases n
  {
    if n > 0 {
      AccumulatedPrefix(eng, cas, kind, a, b, n - 1);
      assert a[n - 1] == b[..|a|][n - 1];
    }
  }

  // ------------------------------------------------------------------------
  // What the accumulator holds
  // ------------------------------------------------------------------------

  lemma {:induction false} PushRowsSpec(buckets: seq<Bucket>, keys: seq<BandKey>, row: u64)
    requires AscendingKeys(buckets)
    ensures AscendingKeys(PushRows(buckets, keys, row))
    ensures |PushRows(buckets, keys, row)| <= |buckets| + |keys|
    ensures forall k :: Holds(PushRows(buckets, keys, row), k, row) <==> k in keys || Holds(buckets, k, row)
    ensures forall k, r :: r != row ==> (Holds(PushRows(buckets, keys, row), k, r) <==> Holds(buckets, k, r))
    decreases |keys|
  {
    if keys != [] {
      var present := Lookup(buckets, keys[0]);
      var next := PushRow(buckets, keys[0], row);
      PutSpec(buckets, keys[0], (if present.Some? then present.value else []) + [row]);
      PushRowsSpec(next, keys[1..], row);
      assert keys == [keys[0]] + keys[1..];
    }
  }

  /** The bucket of a key lists a row. */
  ghost predicate Holds(buckets: seq<Bucket>, key: BandKey, row: int) {
    Lookup(buckets, key).Some? && row in Lookup(buckets, key).value
  }

  /** The signatures are those of the contributing rows, ascending. */
  ghost predicate SignaturesHold(eng: Engine, cas: Cas, kind: SubIndexKind, entries: seq<ManifestEntry>, n: nat,
                                 signatures: seq<SigEntry>)
    requires Readable(cas, entries) && n <= |entries| < 0x1_0000_0000_0000_0000
  {
    && StrictlyByRow(signatures)
    && (forall s :: s in signatures ==>
          s.row < n && LeafContribution(eng, cas, kind, entries[s.row]).Some?
          && LeafContribution(eng, cas, kind, entries[s.row]).value.0 == s.sig)
    && (forall r: nat :: r < n && LeafContribution(eng, cas, kind, entries[r]).Some? ==>
          SigEntry(r, LeafContribution(eng, cas, kind, entries[r]).value.0) in signatures)
  }

  /** The bucket of each key lists exactly the contributing rows that have the key. */
  ghost predicate BucketsHold(eng: Engine, cas: Cas, kind: SubIndexKind, entries: seq<ManifestEntry>, n: nat,
                              buckets: seq<Bucket>)
    requires Readable(cas, entries) && n <= |entries|
  {
    && AscendingKeys(buckets) && |buckets| <= 32 * n
    && forall k, r :: Holds(buckets, k, r) <==>
         0 <= r < n && LeafContribution(eng, cas, kind, entries[r]).Some?
         && k in LeafContribution(eng, cas, kind, entries[r]).value.1
  }

  lemma SignaturesGrow(eng: Engine, cas: Cas, kind: SubIndexKind, entries: seq<ManifestEntry>, n: nat,
                       before: seq<SigEntry>, next: SigEntry)
    requires Readable(cas, entries) && n < |entries| < 0x1_0000_0000_0000_0000
    requires SignaturesHold(eng, cas, kind, entries, n, before)
    requires LeafContribution(eng, cas, kind, entries[n]).Some?
    requires next.row == n && next.sig == LeafContribution(eng, cas, kind, entries[n]).value.0
    ensures SignaturesHold(eng, cas, kind, entries, n + 1, before + [next])
  {
    hide LeafContribution, StrictlyByRow, Readable;
    RowAppended(before, next);
    assert forall s :: s in before + [next] <==> s in before || s == next;
  }

  lemma SignaturesStay(eng: Engine, cas: Cas, kind: SubIndexKind, entries: seq<ManifestEntry>, n: nat,
                       before: seq<SigEntry>)
    requires Readable(cas, entries) && n < |entries| < 0x1_0000_0000_0000_0000
    requires SignaturesHold(eng, cas, kind, entries, n, before) && LeafContribution(eng, cas, kind, entries[n]).None?
    ensures SignaturesHold(eng, cas, kind, entries, n + 1, before)
  {
    hide LeafContribution, StrictlyByRow, Readable;
  }

  lemma RowAppended(signatures: seq<SigEntry>, next: SigEntry)
    requires StrictlyByRow(signatures) && forall s :: s in signatures ==> s.row < next.row
    ensures StrictlyByRow(signatures + [next])
  {
    forall i | 0 <= i < |signatures|
      ensures signatures[i].row < next.row
    {
      assert signatures[i] in signatures;
    }
  }

  lemma BucketsStep(eng: Engine, cas: Cas, kind: SubIndexKind, entries: seq<ManifestEntry>, n: nat, before: seq<Bucket>)
    requires Readable(cas, entries) && n < |entries| < 0x1_0000_0000_0000_0000
    requires BucketsHold(eng, cas, kind, entries, n, before)
    ensures var c := LeafContribution(eng, cas, kind, entries[n]);
            BucketsHold(eng, cas, kind, entries, n + 1, if c.Some? then PushRows(before, c.value.1, n) else before)
  {
    var c := LeafContribution(eng, cas, kind, entries[n]);
    assert c.Some? ==> |c.value.1| <= 32;
    hide LeafContribution, Holds, PushRows;
    if c.Some? {
      PushRowsSpec(before, c.value.1, n);
    }
  }

  lemma NothingHeld(eng: Engine, cas: Cas, kind: SubIndexKind, entries: seq<ManifestEntry>)
    requires Readable(cas, entries) && |entries| < 0x1_0000_0000_0000_0000
    ensures SignaturesHold(eng, cas, kind, entries, 0, []) && BucketsHold(eng, cas, kind, entries, 0, [])
  {
  }

  /** After n rows the accumulator holds what those rows contribute, and nothing else. */
  lemma {:induction false} AccumulatedSpec(eng: Engine, cas: Cas, kind: SubIndexKind, entries: seq<ManifestEntry>,
                                           n: nat)
    requires Readable(cas, entries) && n <= |entries| < 0x1_0000_0000_0000_0000
    ensures var acc := Accumulated(eng, cas, kind, entries, n);
            && SignaturesHold(eng, cas, kind, entries, n, acc.signatures)
            && BucketsHold(eng, cas, kind, entries, n, acc.buckets)
    decreases n
  {
    hide SignaturesHold, BucketsHold, LeafContribution, PushRows;
    if n == 0 {
      NothingHeld(eng, cas, kind, entries);
    } else {
      AccumulatedSpec(eng, cas, kind, entries, n - 1);
      var before := Accumulated(eng, cas, kind, entries, n - 1);
      var c := LeafContribution(eng, cas, kind, entries[n - 1]);
      if c.Some? {
        SignaturesGrow(eng, cas, kind, entries, n - 1, before.signatures, SigEntry(n - 1, c.value.0));
      } else {
        SignaturesStay(eng, cas, kind, entries, n - 1, before.signatures);
      }
      BucketsStep(eng, cas, kind, entries, n - 1, before.buckets);
    }
  }

  // ------------------------------------------------------------------------
  // Which builds fail on widths
  // ------------------------------------------------------------------------

  /** A build of one kind fails exactly when some row's signature has not the index's width. */
  lemma BuiltIffWidths(eng: Engine, cas: Cas, kind: SubIndexKind, entries: seq<ManifestEntry>, width: nat)
    requires Readable(cas, entries) && |entries| < 0x1_0000_0000_0000_0000
    requires width == SigWidth(kind, Accumulated(eng, cas, kind, entries, |entries|))
    ensures BuiltIndex(eng, cas, kind, entries).Ok? <==>
              forall r :: 0 <= r < |entries| && LeafContribution(eng, cas, kind, entries[r]).Some? ==>
                |LeafContribution(eng, cas, kind, entries[r]).value.0| == width
  {
    hide LeafContribution, SigWidth;
    var acc := Accumulated(eng, cas, kind, entries, |entries|);
    AccumulatedSpec(eng, cas, kind, entries, |entries|);
    WidthsChecked(acc.signatures, width);
    forall r | 0 <= r < |entries| && LeafContribution(eng, cas, kind, entries[r]).Some?
      ensures SigEntry(r, LeafContribution(eng, cas, kind, entries[r]).value.0) in acc.signatures
    {
    }
  }

  lemma FixedWidthsFit(eng: Engine, cas: Cas, kind: SubIndexKind, entries: seq<ManifestEntry>)
    requires Readable(cas, entries) && |entries| < 0x1_0000_0000_0000_0000 && !kind.Iscc?
    ensures BuiltIndex(eng, cas, kind, entries).Ok?
  {
    BuiltIffWidths(eng, cas, kind, entries, if kind.Minhash? then 128 else 2);
  }

  /** The ISCC width of a build is that of its first contributing row, cut to 16 bits. */
  lemma FirstIsccWidth(eng: Engine, cas: Cas, entries: seq<ManifestEntry>) returns (first: nat)
    requires Readable(cas, entries) && |entries| < 0x1_0000_0000_0000_0000
    requires exists r :: 0 <= r < |entries| && IsccWidth(eng, cas, entries[r]).Some?
    ensures first < |entries| && IsccWidth(eng, cas, entries[first]).Some?
    ensures SigWidth(Iscc, Accumulated(eng, cas, Iscc, entries, |entries|)) ==
                IsccWidth(eng, cas, entries[first]).value % 0x1_0000
  {
    hide LeafContribution;
    var acc := Accumulated(eng, cas, Iscc, entries, |entries|);
    AccumulatedSpec(eng, cas, Iscc, entries, |entries|);
    var r :| 0 <= r < |entries| && IsccWidth(eng, cas, entries[r]).Some?;
    assert SigEntry(r, LeafContribution(eng, cas, Iscc, entries[r]).value.0) in acc.signatures;
    assert acc.signatures[0] in acc.signatures;
    first := acc.signatures[0].row;
  }

  lemma ClashIffNotFirstWidth(eng: Engine, cas: Cas, entries: seq<ManifestEntry>, first: nat)
    requires Readable(cas, entries) && first < |entries| && IsccWidth(eng, cas, entries[first]).Some?
    ensures IsccWidthsClash(eng, cas, entries) <==>
              exists r :: 0 <= r < |entries| && IsccWidth(eng, cas, entries[r]).Some?
                          && IsccWidth(eng, cas, entries[r]).value !=
                             IsccWidth(eng, cas, entries[first]).value % 0x1_0000
  {
    hide IsccWidth;
    var w := IsccWidth(eng, cas, entries[first]).value;
    if r :| 0 <= r < |entries| && IsccWidth(eng, cas, entries[r]).Some? &&
            IsccWidth(eng, cas, entries[r]).value != w % 0x1_0000 {
      assert w >= 0x1_0000 || IsccWidth(eng, cas, entries[r]) != IsccWidth(eng, cas, entries[first]);
      assert r < first || r == first || first < r;
    }
  }

  /** Only the ISCC build can fail, and does exactly when its widths clash. */
  lemma WidthErrors(eng: Engine, cas: Cas, entries: seq<ManifestEntry>)
    requires Readable(cas, entries) && |entries| < 0x1_0000_0000_0000_0000
    ensures BuiltIndex(eng, cas, Minhash, entries).Ok? && BuiltIndex(eng, cas, Perceptual, entries).Ok?
    ensures BuiltIndex(eng, cas, Iscc, entries).Err? <==> IsccWidthsClash(eng, cas, entries)
  {
    hide LeafContribution, SigWidth, BuiltIndex, Accumulated;
    FixedWidthsFit(eng, cas, Minhash, entries);
    FixedWidthsFit(eng, cas, Perceptual, entries);
    BuiltIffWidths(eng, cas, Iscc, entries, SigWidth(Iscc, Accumulated(eng, cas, Iscc, entries, |entries|)));
    if exists r :: 0 <= r < |entries| && IsccWidth(eng, cas, entries[r]).Some? {
      var first := FirstIsccWidth(eng, cas, entries);
      ClashIffNotFirstWidth(eng, cas, entries, first);
    }
  }
}
