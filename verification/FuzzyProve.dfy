/** The fuzzy dispatchers: the exhaustive scan over the corpus and the sidecar fast path,
    and that the fast path gives the scan's answer. */
module FuzzyProve {
  import opened Basics
  import opened Ordering
  import opened Words
  import opened Hex
  import opened Merkle
  import opened MerkleSoundness
  import opened Manifest
  import opened Banding
  import opened Sidecar
  import opened SidecarFormat
  import opened FuzzyBuild

  datatype FuzzyError =
    | CasRequired
    | LeafMissing(id: Digest)
    | FingerprintFailed
    | BadPerceptualHex
    | IsccUndecodable
    | IsccLengthMismatch(target: nat, leaf: nat)
    | NoMatch
    | Panicked

  type FuzzyResult<T> = Result<T, FuzzyError>

  /** Row and score of the best match so far. */
  type Best = Option<(nat, nat)>

  datatype CasRoot = CasRoot(cas: Cas, sidecars: map<SubIndexKind, Bytes>)

  datatype FuzzyOpts = FuzzyOpts(casRoot: Option<CasRoot>, noIndex: bool)

  // ------------------------------------------------------------------------
  // Keeping the best match
  // ------------------------------------------------------------------------

  /** How a score qualifies and which of two is better. */
  datatype Metric = Distance(most: nat) | Similarity(least: nat) {
    predicate Qualifies(score: nat) {
      match this
      case Distance(most) => score <= most
      case Similarity(least) => score >= least
    }

    predicate Improves(score: nat, on: nat) {
      match this
      case Distance(_) => score < on
      case Similarity(_) => score > on
    }
  }

  function Keep(m: Metric, best: Best, row: nat, score: nat): Best {
    if m.Qualifies(score) && (best.None? || m.Improves(score, best.value.1)) then Some((row, score)) else best
  }

  function KeepOpt(m: Metric, best: Best, row: nat, score: Option<nat>): Best {
    if score.None? then best else Keep(m, best, row, score.value)
  }

  /** The first row, among those of the list, with the best qualifying score. */
  ghost predicate IsFirstBest(m: Metric, score: nat -> Option<nat>, n: nat, best: Best) {
    match best
    case None => forall r: nat :: r < n && score(r).Some? ==> !m.Qualifies(score(r).value)
    case Some((row, s)) =>
      && row < n && score(row) == Some(s) && m.Qualifies(s)
      && (forall r: nat :: r < n && score(r).Some? && m.Qualifies(score(r).value) ==>
            !m.Improves(score(r).value, s) && (r < row ==> m.Improves(s, score(r).value)))
  }

  function FoldRange(m: Metric, score: nat -> Option<nat>, n: nat): Best {
    if n == 0 then None else KeepOpt(m, FoldRange(m, score, n - 1), n - 1, score(n - 1))
  }

  /** The fold returns the first best row, or None when no row qualifies. */
  lemma {:induction false} FoldRangeIsFirstBest(m: Metric, score: nat -> Option<nat>, n: nat)
    ensures IsFirstBest(m, score, n, FoldRange(m, score, n))
  {
    if n > 0 {
      FoldRangeIsFirstBest(m, score, n - 1);
    }
  }

  function FoldRows(m: Metric, score: nat -> Option<nat>, rows: seq<int>, best: Best): Best
    requires forall i :: 0 <= i < |rows| ==> rows[i] >= 0
  {
    if rows == [] then best
    else
      var k := |rows| - 1;
      KeepOpt(m, FoldRows(m, score, rows[..k], best), rows[k], score(rows[k]))
  }

  /** Visiting only an ascending list that misses no qualifying row changes nothing. */
  lemma {:induction false} SkippingKeepsBest(m: Metric, full: nat -> Option<nat>, part: nat -> Option<nat>,
                                             rows: seq<int>, n: nat)
    requires Ascending(rows) && forall i :: 0 <= i < |rows| ==> 0 <= rows[i] < n
    requires forall r: nat :: r < n && r in rows ==> part(r) == full(r)
    requires forall r: nat :: r < n && full(r).Some? && m.Qualifies(full(r).value) ==> r in rows
    ensures FoldRows(m, part, rows, None) == FoldRange(m, full, n)
    decreases n
  {
    if n > 0 {
      if rows != [] && rows[|rows| - 1] == n - 1 {
        var k := |rows| - 1;
        forall r: nat | r < n - 1 && r in rows
          ensures r in rows[..k]
        {
          assert rows == rows[..k] + [rows[k]];
        }
        assert n - 1 in rows;
        SkippingKeepsBest(m, full, part, rows[..k], n - 1);
      } else {
        forall i | 0 <= i < |rows|
          ensures rows[i] < n - 1
        {
          assert i < |rows| - 1 ==> rows[i] < rows[|rows| - 1];
        }
        SkippingKeepsBest(m, full, part, rows, n - 1);
      }
    }
  }

  // ------------------------------------------------------------------------
  // The exhaustive scan
  // ------------------------------------------------------------------------

  /** What one leaf does to a scan: an error that ends it, a skip, or a score. */
  type LeafScore = ManifestEntry -> FuzzyResult<Option<nat>>

  function ReadLeaf(cas: Cas, e: ManifestEntry): FuzzyResult<Bytes> {
    if e.documentId in cas then Ok(cas[e.documentId]) else Err(LeafMissing(e.documentId))
  }

  function FingerprintLeaf(eng: Engine, bytes: Bytes, modality: Modality): FuzzyResult<Option<FingerprintBundle>> {
    match modality
    case Text => (var b := TextBundle(eng, bytes); if b.None? then Err(FingerprintFailed) else Ok(b))
    case Image => (var b := ImageBundle(eng, bytes); if b.None? then Err(FingerprintFailed) else Ok(b))
    case _ => Ok(None)
  }

  function IsccDistance(eng: Engine, a: string, b: string): FuzzyResult<nat> {
    match (eng.isccDecode(a), eng.isccDecode(b))
    case (Some(x), Some(y)) => if |x| != |y| then Err(IsccLengthMismatch(|x|, |y|)) else Ok(Hamming(x, y))
    case _ => Err(IsccUndecodable)
  }

  /** Every leaf's bytes are read, whatever its modality. */
  function IsccScore(eng: Engine, cas: Cas, target: string, e: ManifestEntry): FuzzyResult<Option<nat>> {
    var bytes :- ReadLeaf(cas, e);
    var bundle :- FingerprintLeaf(eng, bytes, e.modality);
    if bundle.None? || bundle.value.iscc.None? then Ok(None)
    else
      var d :- IsccDistance(eng, target, bundle.value.iscc.value);
      Ok(Some(d))
  }

  function HexDistance(a: Text, b: Text): FuzzyResult<nat> {
    match (DecodeHex8(a), DecodeHex8(b))
    case (Some(x), Some(y)) => Ok(Hamming(x, y))
    case _ => Err(BadPerceptualHex)
  }

  type Hash8 = b: seq<u8> | |b| == 8 witness seq(8, _ => 0)

  datatype PerceptualHashes = PerceptualHashes(phash: Hash8, blockhash: Hash8)

  function PerceptualScore(eng: Engine, cas: Cas, target: PerceptualHashes, e: ManifestEntry)
    : FuzzyResult<Option<nat>>
  {
    if !e.modality.Image? then Ok(None)
    else
      var bytes :- ReadLeaf(cas, e);
      var bundle :- FingerprintLeaf(eng, bytes, e.modality);
      if bundle.None? || bundle.value.image.None? then Ok(None)
      else
        var p :- HexDistance(Encode(target.phash), bundle.value.image.value.phash);
        var q :- HexDistance(Encode(target.blockhash), bundle.value.image.value.blockhash);
        Ok(Some(Min(p, q)))
  }

  function MinhashScore(eng: Engine, cas: Cas, target: MinHash, e: ManifestEntry): FuzzyResult<Option<nat>> {
    if !e.modality.Text? then Ok(None)
    else
      var bytes :- ReadLeaf(cas, e);
      var bundle :- FingerprintLeaf(eng, bytes, e.modality);
      if bundle.None? || bundle.value.text.None? then Ok(None)
      else Ok(Some(JaccardPpm(target, bundle.value.text.value)))
  }

  /** The scan over the first n entries: the first leaf error ends it. */
  function Scan(m: Metric, leaf: LeafScore, entries: seq<ManifestEntry>, n: nat): FuzzyResult<Best>
    requires n <= |entries|
  {
    if n == 0 then Ok(None)
    else
      var best :- Scan(m, leaf, entries, n - 1);
      var score :- leaf(entries[n - 1]);
      Ok(KeepOpt(m, best, n - 1, score))
  }

  /** The loop the three dispatchers share; `leaf` is the part of its body that differs. */
  method ScanLoop(m: Metric, leaf: LeafScore, entries: seq<ManifestEntry>) returns (r: FuzzyResult<Best>)
    ensures r == Scan(m, leaf, entries, |entries|)
  {
    var best: Best := None;
    for i := 0 to |entries|
      invariant Scan(m, leaf, entries, i) == Ok(best)
    {
      var score := leaf(entries[i]);
      if score.Err? {
        ScanStops(m, leaf, entries, i, |entries|);
        return Err(score.error);
      }
      if score.value.Some? {
        var s := score.value.value;
        if m.Qualifies(s) && (best.None? || m.Improves(s, best.value.1)) {
          best := Some((i, s));
        }
      }
    }
    r := Ok(best);
  }

  lemma {:induction false} ScanStops(m: Metric, leaf: LeafScore, entries: seq<ManifestEntry>, i: nat, n: nat)
    requires i < n <= |entries| && Scan(m, leaf, entries, i).Ok? && leaf(entries[i]).Err?
    ensures Scan(m, leaf, entries, n) == Err(leaf(entries[i]).error)
    decreases n
  {
    if i < n - 1 {
      ScanStops(m, leaf, entries, i, n - 1);
    }
  }

  function ScoreOfRow(leaf: LeafScore, entries: seq<ManifestEntry>): nat -> Option<nat> {
    (r: nat) => if r < |entries| && leaf(entries[r]).Ok? then leaf(entries[r]).value else None
  }

  /** A scan fails iff some leaf does, and otherwise folds the rows' scores. */
  lemma {:induction false} ScanFolds(m: Metric, leaf: LeafScore, entries: seq<ManifestEntry>, n: nat)
    requires n <= |entries|
    ensures Scan(m, leaf, entries, n).Ok? <==> forall i :: 0 <= i < n ==> leaf(entries[i]).Ok?
    ensures Scan(m, leaf, entries, n).Ok? ==>
              Scan(m, leaf, entries, n).value == FoldRange(m, ScoreOfRow(leaf, entries), n)
  {
    if n > 0 {
      ScanFolds(m, leaf, entries, n - 1);
    }
  }

  /** A scan fails only as some leaf does. */
  lemma {:induction false} ScanErrorIsALeafs(m: Metric, leaf: LeafScore, entries: seq<ManifestEntry>, n: nat,
                                             e: FuzzyError)
    requires n <= |entries| && forall i :: 0 <= i < n ==> leaf(entries[i]) != Err(e)
    ensures Scan(m, leaf, entries, n) != Err(e)
  {
    if n > 0 {
      ScanErrorIsALeafs(m, leaf, entries, n - 1, e);
    }
  }

  /** The first leaf that fails gives the scan its error. */
  ghost predicate FailsFirst(leaf: LeafScore, entries: seq<ManifestEntry>, i: nat) {
    i < |entries| && leaf(entries[i]).Err? && forall j :: 0 <= j < i ==> leaf(entries[j]).Ok?
  }

  lemma FirstFailure(m: Metric, leaf: LeafScore, entries: seq<ManifestEntry>, i: nat)
    requires FailsFirst(leaf, entries, i)
    ensures Scan(m, leaf, entries, |entries|) == Err(leaf(entries[i]).error)
  {
    ScanFolds(m, leaf, entries, i);
    ScanStops(m, leaf, entries, i, |entries|);
  }

  lemma {:induction false} SomeFailsFirst(leaf: LeafScore, entries: seq<ManifestEntry>, n: nat) returns (i: nat)
    requires n < |entries| && leaf(entries[n]).Err?
    ensures FailsFirst(leaf, entries, i)
  {
    if j: nat :| j < n && leaf(entries[j]).Err? {
      i := SomeFailsFirst(leaf, entries, j);
    } else {
      i := n;
    }
  }

  // ------------------------------------------------------------------------
  // The sidecar
  // ------------------------------------------------------------------------

  /** A sidecar file of this kind is there and not to be ignored. */
  predicate Consulted(opts: FuzzyOpts, kind: SubIndexKind) {
    !opts.noIndex && opts.casRoot.Some? && kind in opts.casRoot.value.sidecars
  }

  /** `fuzzy_index_for`: a sidecar is used only if it parses and binds to this manifest; any
      other is passed over, unless parsing it panics. */
  function FuzzyIndexFor(H: Hasher, opts: FuzzyOpts, kind: SubIndexKind, entries: seq<ManifestEntry>)
    : (r: FuzzyResult<Option<FuzzyIndex>>)
    ensures r.Ok? && r.value.Some? ==> r.value.value.bindingRoot == MTH(H, DocumentIds(entries))
  {
    if !Consulted(opts, kind) then Ok(None)
    else
      match FromBytes(H, opts.casRoot.value.sidecars[kind])
      case Err(CapacityOverflow) => Err(Panicked)
      case Err(_) => Ok(None)
      case Ok(idx) => Ok(if idx.bindingRoot == MTH(H, DocumentIds(entries)) then Some(idx) else None)
  }

  /** The sidecar that passes the binding check. */
  predicate Binds(H: Hasher, opts: FuzzyOpts, kind: SubIndexKind, entries: seq<ManifestEntry>) {
    var found := FuzzyIndexFor(H, opts, kind, entries);
    found.Ok? && found.value.Some?
  }

  /** A sidecar that passes the binding check was built over this very sequence of document
      ids, or a hash collision is computed. */
  function BindingCollision(H: Hasher, opts: FuzzyOpts, kind: SubIndexKind,
                            entries: seq<ManifestEntry>, builtOver: seq<ManifestEntry>): (c: Option<Collision>)
    requires Binds(H, opts, kind, entries)
    requires FuzzyIndexFor(H, opts, kind, entries).value.value.bindingRoot == MTH(H, DocumentIds(builtOver))
    ensures c.None? ==> DocumentIds(entries) == DocumentIds(builtOver)
    ensures c.Some? ==> IsCollision(H, c.value)
  {
    RootCollision(H, DocumentIds(entries), DocumentIds(builtOver))
  }

  function MinhashRowScore(idx: FuzzyIndex, target: MinHash, row: nat): Option<nat> {
    match Signature(idx, row)
    case None => None
    case Some(sig) => Some(JaccardPpm(target, sig))
  }

  function PerceptualRowScore(idx: FuzzyIndex, p: u64, q: u64, row: nat): Option<nat> {
    match Signature(idx, row)
    case None => None
    case Some(sig) =>
      if |sig| != 2 then None else Some(Min(BitDistance(p, sig[0]), BitDistance(q, sig[1])))
  }

  function IsccRowScore(idx: FuzzyIndex, packed: seq<u64>, row: nat): Option<nat> {
    match Signature(idx, row)
    case None => None
    case Some(sig) => if |sig| != |packed| then None else Some(Hamming(packed, sig))
  }

  lemma CandidateRowsAreRows(idx: FuzzyIndex, keys: seq<BandKey>)
    ensures forall i :: 0 <= i < |Candidates(idx, keys)| ==> Candidates(idx, keys)[i] >= 0
  {
    CandidatesSpec(idx, keys);
    var rows := Candidates(idx, keys);
    forall i | 0 <= i < |rows|
      ensures rows[i] >= 0
    {
      assert rows[i] in rows;
    }
  }

  /** The loop over candidate rows that the three fast paths share. */
  function IndexedBest(m: Metric, idx: FuzzyIndex, keys: seq<BandKey>, score: nat -> Option<nat>): Best {
    CandidateRowsAreRows(idx, keys);
    FoldRows(m, score, Candidates(idx, keys), None)
  }

  method IndexedLoop(m: Metric, idx: FuzzyIndex, keys: seq<BandKey>, score: nat -> Option<nat>) returns (best: Best)
    ensures best == IndexedBest(m, idx, keys, score)
  {
    CandidateRowsAreRows(idx, keys);
    var rows := CandidatesLoop(idx, keys);
    best := None;
    for i := 0 to |rows|
      invariant best == FoldRows(m, score, rows[..i], None)
    {
      var row: nat := rows[i];
      assert rows[..i + 1][..i] == rows[..i];
      var s := score(row);
      if s.Some? && m.Qualifies(s.value) && (best.None? || m.Improves(s.value, best.value.1)) {
        best := Some((row, s.value));
      }
    }
    assert rows[..|rows|] == rows;
  }

  // ------------------------------------------------------------------------
  // The dispatchers
  // ------------------------------------------------------------------------

  function MinhashLeaf(eng: Engine, cas: Cas, target: MinHash): LeafScore {
    e => MinhashScore(eng, cas, target, e)
  }

  function PerceptualLeaf(eng: Engine, cas: Cas, target: PerceptualHashes): LeafScore {
    e => PerceptualScore(eng, cas, target, e)
  }

  function IsccLeaf(eng: Engine, cas: Cas, target: string): LeafScore {
    e => IsccScore(eng, cas, target, e)
  }

  function MinhashRow(idx: FuzzyIndex, target: MinHash): nat -> Option<nat> {
    r => MinhashRowScore(idx, target, r)
  }

  function PerceptualRow(idx: FuzzyIndex, p: u64, q: u64): nat -> Option<nat> {
    r => PerceptualRowScore(idx, p, q, r)
  }

  function IsccRow(idx: FuzzyIndex, packed: seq<u64>): nat -> Option<nat> {
    r => IsccRowScore(idx, packed, r)
  }

  function Answer(best: Best): FuzzyResult<(nat, nat)> {
    if best.None? then Err(NoMatch) else Ok(best.value)
  }

  function ScanAnswer(m: Metric, leaf: LeafScore, entries: seq<ManifestEntry>): FuzzyResult<(nat, nat)> {
    var best :- Scan(m, leaf, entries, |entries|);
    Answer(best)
  }

  const MINHASH_METRIC := Similarity(MINHASH_THRESHOLD_PPM)
  const PERCEPTUAL_METRIC := Distance(PERCEPTUAL_THRESHOLD)
  const ISCC_METRIC := Distance(ISCC_THRESHOLD)

  function DispatchMinhash(eng: Engine, target: MinHash, entries: seq<ManifestEntry>, opts: FuzzyOpts)
    : FuzzyResult<(nat, nat)>
  {
    var found :- FuzzyIndexFor(eng.hash, opts, Minhash, entries);
    match found
    case Some(idx) =>
      Answer(IndexedBest(MINHASH_METRIC, idx, BandMinhash(eng.hash, target), MinhashRow(idx, target)))
    case None =>
      if opts.casRoot.None? then Err(CasRequired)
      else ScanAnswer(MINHASH_METRIC, MinhashLeaf(eng, opts.casRoot.value.cas, target), entries)
  }

  function DispatchPerceptual(eng: Engine, target: PerceptualHashes, entries: seq<ManifestEntry>, opts: FuzzyOpts)
    : FuzzyResult<(nat, nat)>
  {
    var found :- FuzzyIndexFor(eng.hash, opts, Perceptual, entries);
    match found
    case Some(idx) =>
      var p, q := HashWord(target.phash), HashWord(target.blockhash);
      Answer(IndexedBest(PERCEPTUAL_METRIC, idx, BandPerceptual(p, q), PerceptualRow(idx, p, q)))
    case None =>
      if opts.casRoot.None? then Err(CasRequired)
      else ScanAnswer(PERCEPTUAL_METRIC, PerceptualLeaf(eng, opts.casRoot.value.cas, target), entries)
  }

  /** The fast path decodes the target before anything else; the scan, at each leaf. */
  function DispatchIscc(eng: Engine, target: string, entries: seq<ManifestEntry>, opts: FuzzyOpts)
    : FuzzyResult<(nat, nat)>
  {
    var found :- FuzzyIndexFor(eng.hash, opts, Iscc, entries);
    match found
    case Some(idx) =>
      (match eng.isccDecode(target)
       case None => Err(IsccUndecodable)
       case Some(body) =>
         var packed := PackIsccBody(body);
         Answer(IndexedBest(ISCC_METRIC, idx, BandIscc(eng.hash, body), IsccRow(idx, packed))))
    case None =>
      if opts.casRoot.None? then Err(CasRequired)
      else ScanAnswer(ISCC_METRIC, IsccLeaf(eng, opts.casRoot.value.cas, target), entries)
  }

  // ------------------------------------------------------------------------
  // The fast path refines the scan
  // ------------------------------------------------------------------------

  /** The index of one kind over these entries and this store, as the builder made it. */
  ghost predicate BuiltFrom(eng: Engine, cas: Cas, kind: SubIndexKind, entries: seq<ManifestEntry>, idx: FuzzyIndex) {
    Readable(cas, entries) && |entries| < 0x1_0000_0000 && BuiltIndex(eng, cas, kind, entries) == Ok(idx)
  }

  /** What a built index answers: the contributed signatures, and per key the rows that have it. */
  lemma BuiltIndexAnswers(eng: Engine, cas: Cas, kind: SubIndexKind, entries: seq<ManifestEntry>, idx: FuzzyIndex)
    requires BuiltFrom(eng, cas, kind, entries, idx)
    ensures forall r: nat :: r < |entries| ==>
              var c := LeafContribution(eng, cas, kind, entries[r]);
              Signature(idx, r) == if c.None? then None else Some(c.value.0)
    ensures forall k, r :: Holds(idx.buckets, k, r) <==>
              0 <= r < |entries| && LeafContribution(eng, cas, kind, entries[r]).Some?
              && k in LeafContribution(eng, cas, kind, entries[r]).value.1
    ensures AscendingKeys(idx.buckets)
  {
    var acc := Accumulated(eng, cas, kind, entries, |entries|);
    AccumulatedSpec(eng, cas, kind, entries, |entries|);
    BuiltSignatures(eng, cas, kind, entries, idx, acc);
    NormalizeKeepsHolds(acc.buckets);
    forall r: nat | r < |entries|
      ensures var c := LeafContribution(eng, cas, kind, entries[r]);
              Signature(idx, r) == if c.None? then None else Some(c.value.0)
    {
      SignatureFinds(idx, r);
    }
  }

  lemma BuiltSignatures(eng: Engine, cas: Cas, kind: SubIndexKind, entries: seq<ManifestEntry>, idx: FuzzyIndex,
                        acc: Accumulator)
    requires BuiltFrom(eng, cas, kind, entries, idx)
    requires acc == Accumulated(eng, cas, kind, entries, |entries|) && StrictlyByRow(acc.signatures)
    ensures idx.signatures == acc.signatures && idx.buckets == Normalize(acc.buckets)
  {
    RowOrder();
    SortOfSorted(RowLeq(), acc.signatures);
  }

  lemma {:induction false} NormalizeLookup(buckets: seq<Bucket>, k: BandKey)
    ensures Lookup(Normalize(buckets), k) ==
            match Lookup(buckets, k) case None => None case Some(m) => Some(SortedMembers(m))
  {
    if buckets != [] {
      assert Normalize(buckets)[1..] == Normalize(buckets[1..]);
      NormalizeLookup(buckets[1..], k);
    }
  }

  lemma NormalizeKeepsHolds(buckets: seq<Bucket>)
    requires AscendingKeys(buckets)
    ensures AscendingKeys(Normalize(buckets))
    ensures forall k, r :: Holds(Normalize(buckets), k, r) <==> Holds(buckets, k, r)
  {
    forall k, r
      ensures Holds(Normalize(buckets), k, r) <==> Holds(buckets, k, r)
    {
      NormalizeLookup(buckets, k);
      if Lookup(buckets, k).Some? {
        SortDedupSpec(Lookup(buckets, k).value);
      }
    }
  }

  /** A built index fits its fields, so what is loaded from its bytes is the index itself. */
  lemma BuiltIndexLoads(eng: Engine, kind: SubIndexKind, entries: seq<ManifestEntry>, idx: FuzzyIndex, opts: FuzzyOpts)
    requires opts.casRoot.Some? && BuiltFrom(eng, opts.casRoot.value.cas, kind, entries, idx)
    requires !opts.noIndex && kind in opts.casRoot.value.sidecars
    requires opts.casRoot.value.sidecars[kind] == ToBytes(eng.hash, idx)
    ensures FuzzyIndexFor(eng.hash, opts, kind, entries) == Ok(Some(idx))
  {
    hide FromBytes, ToBytes, Accumulated, LeafContribution;
    var cas := opts.casRoot.value.cas;
    var acc := Accumulated(eng, cas, kind, entries, |entries|);
    AccumulatedSpec(eng, cas, kind, entries, |entries|);
    BuiltSignatures(eng, cas, kind, entries, idx, acc);
    NormalizeKeepsHolds(acc.buckets);
    WidthsChecked(acc.signatures, SigWidth(kind, acc));
    AscendingLength(idx.signatures, |entries|);
    forall i | 0 <= i < |idx.buckets|
      ensures |idx.buckets[i].members| < 0x1_0000_0000
    {
      var b := acc.buckets[i];
      LookupPresent(acc.buckets, b.key);
      SortDedupSpec(b.members);
      var members := idx.buckets[i].members;
      forall j | 0 <= j < |members|
        ensures 0 <= members[j] < |entries|
      {
        assert members[j] in b.members;
        assert Holds(acc.buckets, b.key, members[j]);
      }
      AscendingFits(members, |entries|);
    }
    ParseOfPrint(eng.hash, idx);
  }

  lemma {:induction false} AscendingFits(s: seq<int>, n: nat)
    requires Ascending(s) && forall j :: 0 <= j < |s| ==> 0 <= s[j] < n
    ensures |s| <= n
    decreases n
  {
    if s != [] {
      var k := |s| - 1;
      assert 0 <= s[k] < n;
      assert forall j :: 0 <= j < k ==> s[j] < s[k];
      AscendingFits(s[..k], n - 1);
    }
  }

  lemma AscendingLength(signatures: seq<SigEntry>, n: nat)
    requires StrictlyByRow(signatures) && forall s :: s in signatures ==> s.row < n
    ensures |signatures| <= n
  {
    var rows: seq<int> := seq(|signatures|, i requires 0 <= i < |signatures| => signatures[i].row);
    AscendingFits(rows, n);
  }

  predicate LeafQualifies(m: Metric, leaf: LeafScore, e: ManifestEntry) {
    leaf(e).Ok? && leaf(e).value.Some? && m.Qualifies(leaf(e).value.value)
  }

  /** The heart of the refinement: if every qualifying row has a contribution that shares a
      key with the query, and the stored signatures score as the leaves do, the fast path
      folds to the scan's best row and score. */
  lemma IndexedIsExhaustive(eng: Engine, cas: Cas, kind: SubIndexKind, entries: seq<ManifestEntry>, idx: FuzzyIndex,
                            m: Metric, keys: seq<BandKey>, leaf: LeafScore, row: nat -> Option<nat>)
    requires BuiltFrom(eng, cas, kind, entries, idx)
    requires Scan(m, leaf, entries, |entries|).Ok?
    requires forall r: nat :: r < |entries| && leaf(entries[r]).Ok? ==> row(r) == leaf(entries[r]).value
    requires forall r: nat :: r < |entries| && LeafQualifies(m, leaf, entries[r]) ==>
               var c := LeafContribution(eng, cas, kind, entries[r]);
               c.Some? && ShareKey(keys, c.value.1)
    ensures Ok(IndexedBest(m, idx, keys, row)) == Scan(m, leaf, entries, |entries|)
  {
    BuiltIndexAnswers(eng, cas, kind, entries, idx);
    CandidatesSpec(idx, keys);
    ScanFolds(m, leaf, entries, |entries|);
    var full, rows := ScoreOfRow(leaf, entries), Candidates(idx, keys);
    forall i | 0 <= i < |rows|
      ensures 0 <= rows[i] < |entries|
    {
      assert rows[i] in rows;
      var k :| k in keys && Lookup(idx.buckets, k).Some? && rows[i] in Lookup(idx.buckets, k).value;
      assert Holds(idx.buckets, k, rows[i]);
    }
    forall r: nat | r < |entries| && full(r).Some? && m.Qualifies(full(r).value)
      ensures r in rows
    {
      assert LeafQualifies(m, leaf, entries[r]);
      var c := LeafContribution(eng, cas, kind, entries[r]);
      var k :| k in keys && k in c.value.1;
      assert Holds(idx.buckets, k, r);
      assert InSomeBucket(idx.buckets, keys, r);
    }
    SkippingKeepsBest(m, full, row, rows, |entries|);
  }

  // ------------------------------------------------------------------------
  // The three dispatchers
  // ------------------------------------------------------------------------

  /** A sidecar of this kind is in place, as the builder wrote it for these entries. */
  ghost predicate Installed(eng: Engine, kind: SubIndexKind, entries: seq<ManifestEntry>, opts: FuzzyOpts) {
    && opts.casRoot.Some? && !opts.noIndex && kind in opts.casRoot.value.sidecars
    && Readable(opts.casRoot.value.cas, entries) && |entries| < 0x1_0000_0000
    && BuiltIndex(eng, opts.casRoot.value.cas, kind, entries).Ok?
    && opts.casRoot.value.sidecars[kind] ==
       ToBytes(eng.hash, BuiltIndex(eng, opts.casRoot.value.cas, kind, entries).value)
  }

  /** A row scores on the fast path as its leaf does in the scan, and a qualifying leaf shares
      a band key with the query. */
  ghost predicate RowAgrees(eng: Engine, cas: Cas, kind: SubIndexKind, m: Metric, keys: seq<BandKey>,
                            leaf: LeafScore, row: nat -> Option<nat>, e: ManifestEntry, r: nat)
    requires Fingerprintable(e) ==> e.documentId in cas
  {
    leaf(e).Ok? ==>
      && row(r) == leaf(e).value
      && (LeafQualifies(m, leaf, e) ==>
            var c := LeafContribution(eng, cas, kind, e);
            c.Some? && ShareKey(keys, c.value.1))
  }

  /** The index stores what the leaf contributes. */
  ghost predicate Stored(eng: Engine, cas: Cas, kind: SubIndexKind, idx: FuzzyIndex, e: ManifestEntry, r: nat)
    requires Fingerprintable(e) ==> e.documentId in cas
  {
    var c := LeafContribution(eng, cas, kind, e);
    Signature(idx, r) == if c.None? then None else Some(c.value.0)
  }

  /** With agreeing rows the two paths answer alike exactly when no leaf fails the scan: then
      by the fold, and otherwise the scan's error is none that the fast path has. */
  lemma AgreeingRowsFold(eng: Engine, kind: SubIndexKind, entries: seq<ManifestEntry>, opts: FuzzyOpts, m: Metric,
                         keys: seq<BandKey>, leaf: LeafScore, row: nat -> Option<nat>)
    requires Installed(eng, kind, entries, opts)
    requires forall r: nat :: r < |entries| ==>
               RowAgrees(eng, opts.casRoot.value.cas, kind, m, keys, leaf, row, entries[r], r)
    requires forall i :: 0 <= i < |entries| ==> leaf(entries[i]) != Err(NoMatch)
    ensures var idx := BuiltIndex(eng, opts.casRoot.value.cas, kind, entries).value;
            && FuzzyIndexFor(eng.hash, opts, kind, entries) == Ok(Some(idx))
            && (Answer(IndexedBest(m, idx, keys, row)) == ScanAnswer(m, leaf, entries)
                <==> forall i :: 0 <= i < |entries| ==> leaf(entries[i]).Ok?)
  {
    var cas := opts.casRoot.value.cas;
    var idx := BuiltIndex(eng, cas, kind, entries).value;
    BuiltIndexLoads(eng, kind, entries, idx, opts);
    ScanFolds(m, leaf, entries, |entries|);
    ScanErrorIsALeafs(m, leaf, entries, |entries|, NoMatch);
    if Scan(m, leaf, entries, |entries|).Ok? {
      IndexedIsExhaustive(eng, cas, kind, entries, idx, m, keys, leaf, row);
    }
  }

  lemma InstalledStores(eng: Engine, kind: SubIndexKind, entries: seq<ManifestEntry>, opts: FuzzyOpts)
    requires Installed(eng, kind, entries, opts)
    ensures var cas := opts.casRoot.value.cas;
            forall r: nat :: r < |entries| ==>
              Stored(eng, cas, kind, BuiltIndex(eng, cas, kind, entries).value, entries[r], r)
  {
    var cas := opts.casRoot.value.cas;
    BuiltIndexAnswers(eng, cas, kind, entries, BuiltIndex(eng, cas, kind, entries).value);
  }

  /** The leaf's bytes are there, and the fingerprint library makes a fingerprint of them. */
  predicate Fingerprints(eng: Engine, cas: Cas, e: ManifestEntry) {
    && e.documentId in cas
    && match e.modality
       case Text => eng.fingerprintText(cas[e.documentId]).Some?
       case Image => eng.fingerprintImage(cas[e.documentId]).Some?
       case _ => false
  }

  /** What a MinHash scan needs of a row: a text leaf is in the store and can be fingerprinted. */
  predicate MinhashScans(eng: Engine, cas: Cas, e: ManifestEntry) {
    e.modality.Text? ==> Fingerprints(eng, cas, e)
  }

  /** Of a perceptual scan: an image leaf is, and its hashes are 16 hex characters each. */
  predicate PerceptualScans(eng: Engine, cas: Cas, e: ManifestEntry) {
    e.modality.Image? ==>
      && Fingerprints(eng, cas, e)
      && var img := eng.fingerprintImage(cas[e.documentId]).value.0;
         DecodeHex8(img.phash).Some? && DecodeHex8(img.blockhash).Some?
  }

  /** The ISCC of a leaf that can be fingerprinted. */
  function LeafIscc(eng: Engine, cas: Cas, e: ManifestEntry): string
    requires Fingerprints(eng, cas, e)
  {
    if e.modality.Text? then eng.fingerprintText(cas[e.documentId]).value.1
    else eng.fingerprintImage(cas[e.documentId]).value.1
  }

  /** Of an ISCC scan: every leaf is in the store, text and image leaves can be fingerprinted, and
      their ISCC decodes to a body as long as the query's. */
  predicate IsccScans(eng: Engine, cas: Cas, body: Bytes, e: ManifestEntry) {
    && e.documentId in cas
    && (Fingerprintable(e) ==>
          && Fingerprints(eng, cas, e)
          && var leaf := eng.isccDecode(LeafIscc(eng, cas, e));
             leaf.Some? && |leaf.value| == |body|)
  }

  /** These are exactly the leaves a scan does not fail at. */
  lemma MinhashScansIff(eng: Engine, cas: Cas, target: MinHash, e: ManifestEntry)
    ensures MinhashScore(eng, cas, target, e).Ok? <==> MinhashScans(eng, cas, e)
  {
    hide JaccardPpm;
  }

  lemma PerceptualScansIff(eng: Engine, cas: Cas, target: PerceptualHashes, e: ManifestEntry)
    ensures PerceptualScore(eng, cas, target, e).Ok? <==> PerceptualScans(eng, cas, e)
  {
    hide Hamming, DecodeHex8;
    HashDecodes(target.phash);
    HashDecodes(target.blockhash);
  }

  lemma IsccScansIff(eng: Engine, cas: Cas, target: string, e: ManifestEntry)
    requires eng.isccDecode(target).Some?
    ensures IsccScore(eng, cas, target, e).Ok? <==> IsccScans(eng, cas, eng.isccDecode(target).value, e)
  {
    hide Hamming;
  }

  lemma HashDecodes(t: Hash8)
    ensures DecodeHex8(Encode(t)) == Some(t)
  {
    HexBytesOfEncode(t);
  }

  lemma MinhashRowAgrees(eng: Engine, cas: Cas, target: MinHash, e: ManifestEntry, idx: FuzzyIndex, r: nat)
    requires Fingerprintable(e) ==> e.documentId in cas
    requires Stored(eng, cas, Minhash, idx, e, r)
    ensures RowAgrees(eng, cas, Minhash, MINHASH_METRIC, BandMinhash(eng.hash, target),
                      MinhashLeaf(eng, cas, target), MinhashRow(idx, target), e, r)
  {
    if LeafQualifies(MINHASH_METRIC, MinhashLeaf(eng, cas, target), e) {
      MinhashRecall(eng.hash, target, TextBundle(eng, cas[e.documentId]).value.text.value);
    }
  }

  /** MinHash: the fast path gives the scan's row and score, or its "none", exactly when every
      leaf can be read and fingerprinted; a scan that meets one that cannot be is an error. */
  lemma MinhashFastPathIsScan(eng: Engine, target: MinHash, entries: seq<ManifestEntry>, opts: FuzzyOpts)
    requires Installed(eng, Minhash, entries, opts)
    ensures DispatchMinhash(eng, target, entries, opts) == DispatchMinhash(eng, target, entries, opts.(noIndex := true))
       <==> forall i :: 0 <= i < |entries| ==> MinhashScans(eng, opts.casRoot.value.cas, entries[i])
  {
    var cas := opts.casRoot.value.cas;
    var idx := BuiltIndex(eng, cas, Minhash, entries).value;
    var leaf, row := MinhashLeaf(eng, cas, target), MinhashRow(idx, target);
    InstalledStores(eng, Minhash, entries, opts);
    forall r: nat | r < |entries|
      ensures RowAgrees(eng, cas, Minhash, MINHASH_METRIC, BandMinhash(eng.hash, target), leaf, row, entries[r], r)
    {
      MinhashRowAgrees(eng, cas, target, entries[r], idx, r);
    }
    forall i | 0 <= i < |entries|
      ensures leaf(entries[i]).Ok? <==> MinhashScans(eng, cas, entries[i])
    {
      MinhashScansIff(eng, cas, target, entries[i]);
    }
    AgreeingRowsFold(eng, Minhash, entries, opts, MINHASH_METRIC, BandMinhash(eng.hash, target), leaf, row);
  }

  /** The distance of two hex hashes is the distance of the words they stand for. */
  lemma HexDistanceOfWords(t: Hash8, hex: Text)
    requires HexDistance(Encode(t), hex).Ok?
    ensures PerceptualWord(hex).Some?
    ensures HexDistance(Encode(t), hex) == Ok(BitDistance(FromBE(t), PerceptualWord(hex).value))
  {
    HexBytesOfEncode(t);
    HammingBE(t, DecodeHex8(hex).value);
  }

  /** `u64::from_be_bytes` of a perceptual hash. */
  function HashWord(t: Hash8): u64 {
    Pow256Values();
    FromBE(t)
  }

  lemma PerceptualRowAgrees(eng: Engine, cas: Cas, target: PerceptualHashes, e: ManifestEntry, idx: FuzzyIndex, r: nat)
    requires Fingerprintable(e) ==> e.documentId in cas
    requires Stored(eng, cas, Perceptual, idx, e, r)
    ensures var p, q := HashWord(target.phash), HashWord(target.blockhash);
            RowAgrees(eng, cas, Perceptual, PERCEPTUAL_METRIC, BandPerceptual(p, q),
                      PerceptualLeaf(eng, cas, target), PerceptualRow(idx, p, q), e, r)
  {
    hide BitDistance, HexDistance, PerceptualWord, BandPerceptual, Signature;
    if e.modality.Image? && PerceptualScore(eng, cas, target, e).Ok? {
      var img := ImageBundle(eng, cas[e.documentId]).value.image.value;
      HexDistanceOfWords(target.phash, img.phash);
      HexDistanceOfWords(target.blockhash, img.blockhash);
      if LeafQualifies(PERCEPTUAL_METRIC, PerceptualLeaf(eng, cas, target), e) {
        PerceptualRecall(HashWord(target.phash), HashWord(target.blockhash),
                         PerceptualWord(img.phash).value, PerceptualWord(img.blockhash).value);
      }
    }
  }

  lemma PerceptualErrors(eng: Engine, cas: Cas, target: PerceptualHashes, e: ManifestEntry)
    ensures PerceptualScore(eng, cas, target, e) != Err(NoMatch)
  {
  }

  /** Perceptual hashes: the same. */
  lemma PerceptualFastPathIsScan(eng: Engine, target: PerceptualHashes, entries: seq<ManifestEntry>, opts: FuzzyOpts)
    requires Installed(eng, Perceptual, entries, opts)
    ensures DispatchPerceptual(eng, target, entries, opts) ==
                DispatchPerceptual(eng, target, entries, opts.(noIndex := true))
       <==> forall i :: 0 <= i < |entries| ==> PerceptualScans(eng, opts.casRoot.value.cas, entries[i])
  {
    hide PerceptualScore, PerceptualScans, RowAgrees, BuiltIndex, Stored, Scan, ToBytes;
    var cas := opts.casRoot.value.cas;
    var idx := BuiltIndex(eng, cas, Perceptual, entries).value;
    var p, q := HashWord(target.phash), HashWord(target.blockhash);
    var leaf, row := PerceptualLeaf(eng, cas, target), PerceptualRow(idx, p, q);
    InstalledStores(eng, Perceptual, entries, opts);
    forall r: nat | r < |entries|
      ensures RowAgrees(eng, cas, Perceptual, PERCEPTUAL_METRIC, BandPerceptual(p, q), leaf, row, entries[r], r)
    {
      PerceptualRowAgrees(eng, cas, target, entries[r], idx, r);
    }
    forall i | 0 <= i < |entries|
      ensures leaf(entries[i]) != Err(NoMatch) && (leaf(entries[i]).Ok? <==> PerceptualScans(eng, cas, entries[i]))
    {
      PerceptualErrors(eng, cas, target, entries[i]);
      PerceptualScansIff(eng, cas, target, entries[i]);
    }
    AgreeingRowsFold(eng, Perceptual, entries, opts, PERCEPTUAL_METRIC, BandPerceptual(p, q), leaf, row);
  }

  lemma IsccRowAgrees(eng: Engine, cas: Cas, target: string, e: ManifestEntry, idx: FuzzyIndex, r: nat)
    requires eng.isccDecode(target).Some?
    requires Fingerprintable(e) ==> e.documentId in cas
    requires Stored(eng, cas, Iscc, idx, e, r)
    ensures var body := eng.isccDecode(target).value;
            RowAgrees(eng, cas, Iscc, ISCC_METRIC, BandIscc(eng.hash, body),
                      IsccLeaf(eng, cas, target), IsccRow(idx, PackIsccBody(body)), e, r)
  {
    hide Hamming, PackIsccBody, BandIscc, Signature;
    if Fingerprintable(e) && IsccScore(eng, cas, target, e).Ok? {
      var bundle := BuilderBundle(eng, cas, e).value;
      var x, y := eng.isccDecode(target).value, eng.isccDecode(bundle.iscc.value).value;
      HammingOfPacked(x, y);
      if Hamming(x, y) <= ISCC_THRESHOLD {
        IsccRecall(eng.hash, x, y);
      }
    }
  }

  lemma IsccErrors(eng: Engine, cas: Cas, target: string, e: ManifestEntry)
    ensures IsccScore(eng, cas, target, e) != Err(NoMatch)
  {
  }

  /** ISCC, for a target that decodes: the same. */
  lemma IsccFastPathIsScan(eng: Engine, target: string, entries: seq<ManifestEntry>, opts: FuzzyOpts)
    requires Installed(eng, Iscc, entries, opts) && eng.isccDecode(target).Some?
    ensures DispatchIscc(eng, target, entries, opts) == DispatchIscc(eng, target, entries, opts.(noIndex := true))
       <==> forall i :: 0 <= i < |entries| ==>
              IsccScans(eng, opts.casRoot.value.cas, eng.isccDecode(target).value, entries[i])
  {
    hide IsccScore, IsccScans, RowAgrees, BuiltIndex, Stored, Scan, ToBytes;
    var cas, body := opts.casRoot.value.cas, eng.isccDecode(target).value;
    var idx := BuiltIndex(eng, cas, Iscc, entries).value;
    var leaf, row := IsccLeaf(eng, cas, target), IsccRow(idx, PackIsccBody(body));
    InstalledStores(eng, Iscc, entries, opts);
    forall r: nat | r < |entries|
      ensures RowAgrees(eng, cas, Iscc, ISCC_METRIC, BandIscc(eng.hash, body), leaf, row, entries[r], r)
    {
      IsccRowAgrees(eng, cas, target, entries[r], idx, r);
    }
    forall i | 0 <= i < |entries|
      ensures leaf(entries[i]) != Err(NoMatch) && (leaf(entries[i]).Ok? <==> IsccScans(eng, cas, body, entries[i]))
    {
      IsccErrors(eng, cas, target, entries[i]);
      IsccScansIff(eng, cas, target, entries[i]);
    }
    AgreeingRowsFold(eng, Iscc, entries, opts, ISCC_METRIC, BandIscc(eng.hash, body), leaf, row);
  }

  /** A leaf in the store that is neither text nor image. */
  predicate PassedOver(cas: Cas, e: ManifestEntry) {
    e.documentId in cas && !Fingerprintable(e)
  }

  lemma UndecodableScore(eng: Engine, cas: Cas, target: string, e: ManifestEntry)
    requires eng.isccDecode(target).None?
    ensures var score := IsccScore(eng, cas, target, e);
            && (score == Err(IsccUndecodable) <==> Fingerprints(eng, cas, e))
            && (score == Ok(None) <==> PassedOver(cas, e))
            && (score.Ok? ==> score == Ok(None))
  {
  }

  /** The first leaf that is not passed over can be fingerprinted. */
  predicate FingerprintsFirst(eng: Engine, cas: Cas, entries: seq<ManifestEntry>, i: nat) {
    i < |entries| && Fingerprints(eng, cas, entries[i]) && forall j :: 0 <= j < i ==> PassedOver(cas, entries[j])
  }

  /** ISCC, for a target that does not decode. The fast path is an error. The scan is the same
      error exactly when some leaf can be read and fingerprinted and every earlier one is in the
      store and neither text nor image; it finds nothing when all are that. */
  lemma IsccUndecodableTarget(eng: Engine, target: string, entries: seq<ManifestEntry>, opts: FuzzyOpts)
    requires Installed(eng, Iscc, entries, opts) && eng.isccDecode(target).None?
    ensures DispatchIscc(eng, target, entries, opts) == Err(IsccUndecodable)
    ensures DispatchIscc(eng, target, entries, opts) == DispatchIscc(eng, target, entries, opts.(noIndex := true))
       <==> exists i: nat :: FingerprintsFirst(eng, opts.casRoot.value.cas, entries, i)
    ensures DispatchIscc(eng, target, entries, opts.(noIndex := true)) == Err(NoMatch)
       <==> forall i :: 0 <= i < |entries| ==> PassedOver(opts.casRoot.value.cas, entries[i])
  {
    hide IsccScore, PassedOver, Fingerprints, BuiltIndex, ToBytes, Scan;
    var cas := opts.casRoot.value.cas;
    var leaf := IsccLeaf(eng, cas, target);
    BuiltIndexLoads(eng, Iscc, entries, BuiltIndex(eng, cas, Iscc, entries).value, opts);
    UndecodableScansToNone(eng, cas, target, entries, |entries|);
    ScanFolds(ISCC_METRIC, leaf, entries, |entries|);
    forall e | e in entries
      ensures leaf(e) == Err(IsccUndecodable) <==> Fingerprints(eng, cas, e)
      ensures leaf(e) == Ok(None) <==> PassedOver(cas, e)
      ensures leaf(e).Ok? ==> leaf(e) == Ok(None)
      ensures leaf(e) != Err(NoMatch)
    {
      UndecodableScore(eng, cas, target, e);
      IsccErrors(eng, cas, target, e);
    }
    if n: nat :| n < |entries| && leaf(entries[n]).Err? {
      var i := SomeFailsFirst(leaf, entries, n);
      FirstFailure(ISCC_METRIC, leaf, entries, i);
      assert Fingerprints(eng, cas, entries[i]) <==> FingerprintsFirst(eng, cas, entries, i);
      forall k: nat | FingerprintsFirst(eng, cas, entries, k)
        ensures k == i
      {
        assert leaf(entries[k]).Err?;
      }
    }
  }

  lemma {:induction false} UndecodableScansToNone(eng: Engine, cas: Cas, target: string, entries: seq<ManifestEntry>,
                                                  n: nat)
    requires eng.isccDecode(target).None? && n <= |entries|
    ensures var r := Scan(ISCC_METRIC, IsccLeaf(eng, cas, target), entries, n);
            r.Ok? ==> r.value == None
  {
    if n > 0 {
      UndecodableScansToNone(eng, cas, target, entries, n - 1);
      var e := entries[n - 1];
      assert IsccScore(eng, cas, target, e).Ok? ==> IsccScore(eng, cas, target, e).value.None?;
    }
  }

  /** One leaf without a fingerprint is enough for the two paths to differ. */
  lemma UndecodableDiffers(eng: Engine, target: string, e: ManifestEntry, bytes: Bytes) returns (opts: FuzzyOpts)
    requires eng.isccDecode(target).None? && e.modality.Audio?
    ensures Installed(eng, Iscc, [e], opts)
    ensures DispatchIscc(eng, target, [e], opts) == Err(IsccUndecodable)
    ensures DispatchIscc(eng, target, [e], opts.(noIndex := true)) == Err(NoMatch)
  {
    var cas: Cas := map[e.documentId := bytes];
    assert Accumulated(eng, cas, Iscc, [e], 0) == Accumulator([], []);
    var idx := BuiltIndex(eng, cas, Iscc, [e]).value;
    opts := FuzzyOpts(Some(CasRoot(cas, map[Iscc := ToBytes(eng.hash, idx)])), false);
    IsccUndecodableTarget(eng, target, [e], opts);
    assert IsccScore(eng, cas, target, e) == Ok(None);
  }

  // ------------------------------------------------------------------------
  // Panics
  // ------------------------------------------------------------------------

  lemma LookupPanicsIff(H: Hasher, opts: FuzzyOpts, kind: SubIndexKind, entries: seq<ManifestEntry>)
    ensures FuzzyIndexFor(H, opts, kind, entries) == Err(Panicked) <==>
              Consulted(opts, kind) && DeclaresTooMany(H, opts.casRoot.value.sidecars[kind])
    ensures FuzzyIndexFor(H, opts, kind, entries).Err? ==> FuzzyIndexFor(H, opts, kind, entries) == Err(Panicked)
  {
    hide FromBytes, DeclaresTooMany;
    if Consulted(opts, kind) {
      ParserPanicsIff(H, opts.casRoot.value.sidecars[kind]);
    }
  }

  lemma ScansDoNotPanic(eng: Engine, cas: Cas, entries: seq<ManifestEntry>,
                        text: MinHash, image: PerceptualHashes, code: string)
    ensures ScanAnswer(MINHASH_METRIC, MinhashLeaf(eng, cas, text), entries) != Err(Panicked)
    ensures ScanAnswer(PERCEPTUAL_METRIC, PerceptualLeaf(eng, cas, image), entries) != Err(Panicked)
    ensures ScanAnswer(ISCC_METRIC, IsccLeaf(eng, cas, code), entries) != Err(Panicked)
  {
    ScanErrorIsALeafs(MINHASH_METRIC, MinhashLeaf(eng, cas, text), entries, |entries|, Panicked);
    ScanErrorIsALeafs(PERCEPTUAL_METRIC, PerceptualLeaf(eng, cas, image), entries, |entries|, Panicked);
    ScanErrorIsALeafs(ISCC_METRIC, IsccLeaf(eng, cas, code), entries, |entries|, Panicked);
  }

  /** A dispatcher panics exactly when it consults a sidecar whose parsing does: such a file
      does not fall back to the scan. */
  lemma DispatchersPanicIff(eng: Engine, entries: seq<ManifestEntry>, opts: FuzzyOpts,
                            text: MinHash, image: PerceptualHashes, code: string)
    ensures DispatchMinhash(eng, text, entries, opts) == Err(Panicked) <==>
              Consulted(opts, Minhash) && DeclaresTooMany(eng.hash, opts.casRoot.value.sidecars[Minhash])
    ensures DispatchPerceptual(eng, image, entries, opts) == Err(Panicked) <==>
              Consulted(opts, Perceptual) && DeclaresTooMany(eng.hash, opts.casRoot.value.sidecars[Perceptual])
    ensures DispatchIscc(eng, code, entries, opts) == Err(Panicked) <==>
              Consulted(opts, Iscc) && DeclaresTooMany(eng.hash, opts.casRoot.value.sidecars[Iscc])
  {
    hide FuzzyIndexFor, Consulted, DeclaresTooMany, ScanAnswer, IndexedBest;
    LookupPanicsIff(eng.hash, opts, Minhash, entries);
    LookupPanicsIff(eng.hash, opts, Perceptual, entries);
    LookupPanicsIff(eng.hash, opts, Iscc, entries);
    if opts.casRoot.Some? {
      ScansDoNotPanic(eng, opts.casRoot.value.cas, entries, text, image, code);
    }
  }

  // ------------------------------------------------------------------------
  // Sidecars built over another manifest
  // ------------------------------------------------------------------------

  lemma {:induction false} SameColumnsAccumulate(eng: Engine, cas: Cas, kind: SubIndexKind,
                                                 a: seq<ManifestEntry>, b: seq<ManifestEntry>, n: nat)
    requires Readable(cas, a) && Readable(cas, b) && n <= |a| == |b| < 0x1_0000_0000_0000_0000
    requires forall i :: 0 <= i < |a| ==> a[i].documentId == b[i].documentId && a[i].modality == b[i].modality
    ensures Accumulated(eng, cas, kind, a, n) == Accumulated(eng, cas, kind, b, n)
  {
    if n > 0 {
      SameColumnsAccumulate(eng, cas, kind, a, b, n - 1);
      assert LeafContribution(eng, cas, kind, a[n - 1]) == LeafContribution(eng, cas, kind, b[n - 1]);
    }
  }

  /** A sidecar built over any manifest, once it passes the binding check for these entries and
      agrees with them on modalities, which the root does not bind, is the one built for them:
      the three equivalences above hold of it. Otherwise a collision is computed. */
  function ForeignSidecarCollision(eng: Engine, kind: SubIndexKind, opts: FuzzyOpts,
                                   entries: seq<ManifestEntry>, builtOver: seq<ManifestEntry>): (c: Option<Collision>)
    requires Installed(eng, kind, builtOver, opts) && Binds(eng.hash, opts, kind, entries)
    requires forall i :: 0 <= i < |entries| && i < |builtOver| ==> entries[i].modality == builtOver[i].modality
    ensures c.None? ==> Installed(eng, kind, entries, opts)
    ensures c.Some? ==> IsCollision(eng.hash, c.value)
  {
    var cas := opts.casRoot.value.cas;
    BuiltIndexLoads(eng, kind, builtOver, BuiltIndex(eng, cas, kind, builtOver).value, opts);
    var c := BindingCollision(eng.hash, opts, kind, entries, builtOver);
    if c.Some? then c
    else
      SameColumnsInstalled(eng, kind, opts, entries, builtOver);
      None
  }

  lemma SameColumnsInstalled(eng: Engine, kind: SubIndexKind, opts: FuzzyOpts,
                             entries: seq<ManifestEntry>, builtOver: seq<ManifestEntry>)
    requires Installed(eng, kind, builtOver, opts) && DocumentIds(entries) == DocumentIds(builtOver)
    requires forall i :: 0 <= i < |entries| && i < |builtOver| ==> entries[i].modality == builtOver[i].modality
    ensures Installed(eng, kind, entries, opts)
  {
    hide ToBytes, Accumulated, IndexOf;
    var cas := opts.casRoot.value.cas;
    forall i | 0 <= i < |entries|
      ensures entries[i].documentId == builtOver[i].documentId
    {
      assert DocumentIds(entries)[i] == DocumentIds(builtOver)[i];
    }
    SameColumnsAccumulate(eng, cas, kind, entries, builtOver, |entries|);
  }

  /** The root binds ids only. A text leaf's sidecar still binds once the manifest calls the
      leaf something else, and then finds a match that the scan passes over. */
  lemma ChangedModalityDiffers(eng: Engine, e: ManifestEntry, bytes: Bytes) returns (opts: FuzzyOpts, target: MinHash)
    requires e.modality.Text? && eng.fingerprintText(bytes).Some?
    ensures Installed(eng, Minhash, [e], opts) && Binds(eng.hash, opts, Minhash, [e.(modality := Audio)])
    ensures DispatchMinhash(eng, target, [e.(modality := Audio)], opts) == Ok((0, 1_000_000))
    ensures DispatchMinhash(eng, target, [e.(modality := Audio)], opts.(noIndex := true)) == Err(NoMatch)
  {
    hide ToBytes, BuiltIndex, IndexedBest;
    var cas: Cas := map[e.documentId := bytes];
    FixedWidthsFit(eng, cas, Minhash, [e]);
    var idx := BuiltIndex(eng, cas, Minhash, [e]).value;
    opts := FuzzyOpts(Some(CasRoot(cas, map[Minhash := ToBytes(eng.hash, idx)])), false);
    target := eng.fingerprintText(bytes).value.0;
    MatchesAll(target, target);
    assert MinhashScore(eng, cas, target, e) == Ok(Some(1_000_000));
    assert Scan(MINHASH_METRIC, MinhashLeaf(eng, cas, target), [e], 0) == Ok(None);
    MinhashFastPathIsScan(eng, target, [e], opts);
    BuiltIndexLoads(eng, Minhash, [e], idx, opts);
    assert DocumentIds([e.(modality := Audio)]) == DocumentIds([e]);
    assert DispatchMinhash(eng, target, [e], opts) == DispatchMinhash(eng, target, [e.(modality := Audio)], opts);
    assert Scan(MINHASH_METRIC, MinhashLeaf(eng, cas, target), [e.(modality := Audio)], 0) == Ok(None);
  }

  /** What the scan itself answers: the first row with the best qualifying score. */
  lemma ScanIsFirstBest(m: Metric, leaf: LeafScore, entries: seq<ManifestEntry>)
    requires Scan(m, leaf, entries, |entries|).Ok?
    ensures IsFirstBest(m, ScoreOfRow(leaf, entries), |entries|, Scan(m, leaf, entries, |entries|).value)
  {
    ScanFolds(m, leaf, entries, |entries|);
    FoldRangeIsFirstBest(m, ScoreOfRow(leaf, entries), |entries|);
  }
}
