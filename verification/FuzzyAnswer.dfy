/** What the fuzzy dispatchers answer, said of the fingerprints themselves: how many components
    or bits of the target's agree or differ with each leaf's. */
module FuzzyAnswer {
  import opened Basics
  import opened Words
  import opened Hex
  import opened Merkle
  import opened Manifest
  import opened Banding
  import opened Sidecar
  import opened SidecarFormat
  import opened FuzzyBuild
  import opened FuzzyProve

  // ------------------------------------------------------------------------
  // Scans in general
  // ------------------------------------------------------------------------

  /** The sidecar of this kind is not to be used: told so, not there, not readable, or of other ids. */
  predicate Ignored(H: Hasher, opts: FuzzyOpts, kind: SubIndexKind, entries: seq<ManifestEntry>)
    requires opts.casRoot.Some?
  {
    || opts.noIndex
    || kind !in opts.casRoot.value.sidecars
    || match FromBytes(H, opts.casRoot.value.sidecars[kind])
       case Err(e) => e != CapacityOverflow
       case Ok(idx) => idx.bindingRoot != MTH(H, DocumentIds(entries))
  }

  lemma MinhashScanned(eng: Engine, target: MinHash, entries: seq<ManifestEntry>, opts: FuzzyOpts)
    requires opts.casRoot.Some? && Ignored(eng.hash, opts, Minhash, entries)
    ensures DispatchMinhash(eng, target, entries, opts) ==
              ScanAnswer(MINHASH_METRIC, MinhashLeaf(eng, opts.casRoot.value.cas, target), entries)
  {
    hide ScanAnswer, IndexedBest, FromBytes, MTH;
  }

  lemma PerceptualScanned(eng: Engine, target: PerceptualHashes, entries: seq<ManifestEntry>, opts: FuzzyOpts)
    requires opts.casRoot.Some? && Ignored(eng.hash, opts, Perceptual, entries)
    ensures DispatchPerceptual(eng, target, entries, opts) ==
              ScanAnswer(PERCEPTUAL_METRIC, PerceptualLeaf(eng, opts.casRoot.value.cas, target), entries)
  {
    hide ScanAnswer, IndexedBest, FromBytes, MTH;
  }

  lemma IsccScanned(eng: Engine, target: string, entries: seq<ManifestEntry>, opts: FuzzyOpts)
    requires opts.casRoot.Some? && Ignored(eng.hash, opts, Iscc, entries)
    ensures DispatchIscc(eng, target, entries, opts) ==
              ScanAnswer(ISCC_METRIC, IsccLeaf(eng, opts.casRoot.value.cas, target), entries)
  {
    hide ScanAnswer, IndexedBest, FromBytes, MTH;
  }

  /** Without a store there is nothing to compare with. */
  lemma NoStoreNoAnswer(eng: Engine, entries: seq<ManifestEntry>, opts: FuzzyOpts,
                        text: MinHash, image: PerceptualHashes, code: string)
    requires opts.casRoot.None?
    ensures DispatchMinhash(eng, text, entries, opts) == Err(CasRequired)
    ensures DispatchPerceptual(eng, image, entries, opts) == Err(CasRequired)
    ensures DispatchIscc(eng, code, entries, opts) == Err(CasRequired)
  {
  }

  /** A scan that passes over what the builder leaves out of a sidecar. */
  function Tolerant(leaf: LeafScore): LeafScore {
    e => if leaf(e).Ok? then leaf(e) else Ok(None)
  }

  lemma {:induction false} TolerantSame(m: Metric, leaf: LeafScore, entries: seq<ManifestEntry>, n: nat)
    requires n <= |entries| && forall i :: 0 <= i < n ==> leaf(entries[i]).Ok?
    ensures Scan(m, Tolerant(leaf), entries, n) == Scan(m, leaf, entries, n)
  {
    if n > 0 {
      TolerantSame(m, leaf, entries, n - 1);
    }
  }

  lemma TolerantRowAgrees(eng: Engine, cas: Cas, kind: SubIndexKind, m: Metric, keys: seq<BandKey>,
                          leaf: LeafScore, row: nat -> Option<nat>, e: ManifestEntry, r: nat)
    requires Fingerprintable(e) ==> e.documentId in cas
    requires RowAgrees(eng, cas, kind, m, keys, leaf, row, e, r) && (leaf(e).Err? ==> row(r) == None)
    ensures RowAgrees(eng, cas, kind, m, keys, Tolerant(leaf), row, e, r)
  {
    hide LeafContribution;
  }

  lemma FirstBestUnique(m: Metric, score: nat -> Option<nat>, n: nat, a: Best, b: Best)
    requires IsFirstBest(m, score, n, a) && IsFirstBest(m, score, n, b)
    ensures a == b
  {
  }

  /** When no leaf fails, the answer is whatever is the first best. */
  lemma ScanAnswersBest(m: Metric, leaf: LeafScore, entries: seq<ManifestEntry>, best: Best)
    requires forall i :: 0 <= i < |entries| ==> leaf(entries[i]).Ok?
    ensures ScanAnswer(m, leaf, entries) == Answer(best) <==> IsFirstBest(m, ScoreOfRow(leaf, entries), |entries|, best)
  {
    hide IsFirstBest;
    ScanFolds(m, leaf, entries, |entries|);
    ScanIsFirstBest(m, leaf, entries);
    var got := Scan(m, leaf, entries, |entries|).value;
    if IsFirstBest(m, ScoreOfRow(leaf, entries), |entries|, best) {
      FirstBestUnique(m, ScoreOfRow(leaf, entries), |entries|, got, best);
    }
  }

  /** The first row whose number is largest, if it is large enough. */
  ghost predicate FirstMost(f: nat -> Option<nat>, n: nat, least: nat, row: nat) {
    && row < n && f(row).Some? && f(row).value >= least
    && forall j: nat :: j < n && f(j).Some? ==> f(j).value <= f(row).value && (j < row ==> f(j).value < f(row).value)
  }

  /** The first row whose number is smallest, if it is small enough. */
  ghost predicate FirstLeast(f: nat -> Option<nat>, n: nat, most: nat, row: nat) {
    && row < n && f(row).Some? && f(row).value <= most
    && forall j: nat :: j < n && f(j).Some? ==> f(j).value >= f(row).value && (j < row ==> f(j).value > f(row).value)
  }

  lemma BestOfDistances(f: nat -> Option<nat>, n: nat, most: nat, best: Best)
    ensures IsFirstBest(Distance(most), f, n, best) <==>
              match best
              case None => forall j: nat :: j < n && f(j).Some? ==> f(j).value > most
              case Some((row, s)) => FirstLeast(f, n, most, row) && f(row) == Some(s)
  {
  }

  lemma BestBySameScores(leaf: LeafScore, entries: seq<ManifestEntry>, most: nat, f: nat -> Option<nat>)
    requires forall j: nat :: j < |entries| ==> leaf(entries[j]).Ok? && ScoreOfRow(leaf, entries)(j) == f(j)
    ensures var r := ScanAnswer(Distance(most), leaf, entries);
            && (r == Err(NoMatch) <==> forall j: nat :: j < |entries| && f(j).Some? ==> f(j).value > most)
            && forall row: nat, s: nat :: r == Ok((row, s)) <==>
                 FirstLeast(f, |entries|, most, row) && f(row) == Some(s)
  {
    hide ScanAnswer;
    var score := ScoreOfRow(leaf, entries);
    ScanAnswersBest(Distance(most), leaf, entries, None);
    BestOfDistances(score, |entries|, most, None);
    forall row: nat, s: nat
      ensures ScanAnswer(Distance(most), leaf, entries) == Ok((row, s)) <==>
                FirstLeast(f, |entries|, most, row) && f(row) == Some(s)
    {
      ScanAnswersBest(Distance(most), leaf, entries, Some((row, s)));
      BestOfDistances(score, |entries|, most, Some((row, s)));
    }
  }

  function Ppm(agreements: nat): nat {
    agreements * 1_000_000 / 128
  }

  lemma PpmGrows()
    ensures forall a: nat, b: nat :: a < b ==> Ppm(a) < Ppm(b)
    ensures forall a: nat :: Ppm(a) >= 850_000 <==> a >= 109
  {
  }

  lemma BestOfShares(f: nat -> Option<nat>, ppm: nat -> Option<nat>, n: nat, best: Best)
    requires forall j: nat :: j < n ==> ppm(j) == if f(j).Some? then Some(Ppm(f(j).value)) else None
    ensures IsFirstBest(Similarity(850_000), ppm, n, best) <==>
              match best
              case None => forall j: nat :: j < n && f(j).Some? ==> f(j).value < 109
              case Some((row, s)) => FirstMost(f, n, 109, row) && Ppm(f(row).value) == s
  {
    hide Ppm;
    PpmGrows();
  }

  // ------------------------------------------------------------------------
  // MinHash
  // ------------------------------------------------------------------------

  /** In how many components the MinHash of a row's text agrees with the target. */
  function TextAgreements(eng: Engine, cas: Cas, target: MinHash, entries: seq<ManifestEntry>): nat -> Option<nat> {
    (r: nat) =>
      if r < |entries| && entries[r].modality.Text? && Fingerprints(eng, cas, entries[r])
      then Some(|Agreements(target, eng.fingerprintText(cas[entries[r].documentId]).value.0)|)
      else None
  }

  lemma MinhashScoreCounts(eng: Engine, cas: Cas, target: MinHash, entries: seq<ManifestEntry>, r: nat)
    requires r < |entries|
    ensures var f := TextAgreements(eng, cas, target, entries);
            Tolerant(MinhashLeaf(eng, cas, target))(entries[r]) ==
            Ok(if f(r).Some? then Some(Ppm(f(r).value)) else None)
  {
    if entries[r].modality.Text? && Fingerprints(eng, cas, entries[r]) {
      MatchesCounts(target, eng.fingerprintText(cas[entries[r].documentId]).value.0);
    }
  }

  /** What a scan cannot have is not in the sidecar either. */
  lemma MinhashLeftOut(eng: Engine, cas: Cas, e: ManifestEntry)
    requires Fingerprintable(e) ==> e.documentId in cas
    requires !MinhashScans(eng, cas, e)
    ensures LeafContribution(eng, cas, Minhash, e).None?
  {
  }

  lemma MinhashIsTolerant(eng: Engine, target: MinHash, entries: seq<ManifestEntry>, opts: FuzzyOpts)
    requires opts.casRoot.Some?
    requires Installed(eng, Minhash, entries, opts) || Ignored(eng.hash, opts, Minhash, entries)
    requires Ignored(eng.hash, opts, Minhash, entries) ==>
               forall i :: 0 <= i < |entries| ==> MinhashScans(eng, opts.casRoot.value.cas, entries[i])
    ensures DispatchMinhash(eng, target, entries, opts) ==
            ScanAnswer(MINHASH_METRIC, Tolerant(MinhashLeaf(eng, opts.casRoot.value.cas, target)), entries)
  {
    hide MinhashScore, MinhashScans, RowAgrees, BuiltIndex, Scan, ToBytes, LeafContribution, FromBytes;
    var cas := opts.casRoot.value.cas;
    var leaf := MinhashLeaf(eng, cas, target);
    forall r: nat | r < |entries|
      ensures leaf(entries[r]).Ok? <==> MinhashScans(eng, cas, entries[r])
    {
      MinhashScansIff(eng, cas, target, entries[r]);
    }
    if Installed(eng, Minhash, entries, opts) {
      var idx := BuiltIndex(eng, cas, Minhash, entries).value;
      var keys := BandMinhash(eng.hash, target);
      var row := MinhashRow(idx, target);
      InstalledStores(eng, Minhash, entries, opts);
      forall r: nat | r < |entries|
        ensures RowAgrees(eng, cas, Minhash, MINHASH_METRIC, keys, Tolerant(leaf), row, entries[r], r)
      {
        MinhashRowAgrees(eng, cas, target, entries[r], idx, r);
        if leaf(entries[r]).Err? {
          MinhashLeftOut(eng, cas, entries[r]);
        }
        TolerantRowAgrees(eng, cas, Minhash, MINHASH_METRIC, keys, leaf, row, entries[r], r);
      }
      AgreeingRowsFold(eng, Minhash, entries, opts, MINHASH_METRIC, keys, Tolerant(leaf), row);
    } else {
      MinhashScanned(eng, target, entries, opts);
      TolerantSame(MINHASH_METRIC, leaf, entries, |entries|);
    }
  }

  /** The MinHash dispatcher's answer, by a sidecar built for these entries, or by a scan that can
      read and fingerprint every text leaf: none, exactly when all text agrees with the target in
      fewer than 109 of the 128 components, and otherwise the first row that agrees in the most,
      with that number in parts per million. */
  lemma MinhashAnswer(eng: Engine, target: MinHash, entries: seq<ManifestEntry>, opts: FuzzyOpts)
    requires opts.casRoot.Some?
    requires Installed(eng, Minhash, entries, opts) || Ignored(eng.hash, opts, Minhash, entries)
    requires Ignored(eng.hash, opts, Minhash, entries) ==>
               forall i :: 0 <= i < |entries| ==> MinhashScans(eng, opts.casRoot.value.cas, entries[i])
    ensures var r := DispatchMinhash(eng, target, entries, opts);
            var f := TextAgreements(eng, opts.casRoot.value.cas, target, entries);
            && (r == Err(NoMatch) <==> forall j: nat :: j < |entries| && f(j).Some? ==> f(j).value < 109)
            && forall row: nat, s: nat :: r == Ok((row, s)) <==>
                 FirstMost(f, |entries|, 109, row) && s == f(row).value * 1_000_000 / 128
  {
    hide Ignored, Installed, ScanAnswer, IsFirstBest, MinhashScans, TextAgreements, Tolerant;
    var cas := opts.casRoot.value.cas;
    var leaf, f := Tolerant(MinhashLeaf(eng, cas, target)), TextAgreements(eng, cas, target, entries);
    MinhashIsTolerant(eng, target, entries, opts);
    forall j: nat | j < |entries|
      ensures leaf(entries[j]).Ok?
      ensures ScoreOfRow(leaf, entries)(j) == if f(j).Some? then Some(Ppm(f(j).value)) else None
    {
      MinhashScoreCounts(eng, cas, target, entries, j);
    }
    ScanAnswersBest(MINHASH_METRIC, leaf, entries, None);
    BestOfShares(f, ScoreOfRow(leaf, entries), |entries|, None);
    forall row: nat, s: nat
      ensures DispatchMinhash(eng, target, entries, opts) == Ok((row, s)) <==>
                FirstMost(f, |entries|, 109, row) && s == f(row).value * 1_000_000 / 128
    {
      ScanAnswersBest(MINHASH_METRIC, leaf, entries, Some((row, s)));
      BestOfShares(f, ScoreOfRow(leaf, entries), |entries|, Some((row, s)));
    }
  }

  /** A leaf the scan needs and cannot have ends it, with the error of the first such leaf. */
  lemma MinhashScanFails(eng: Engine, target: MinHash, entries: seq<ManifestEntry>, opts: FuzzyOpts, i: nat)
    requires opts.casRoot.Some? && Ignored(eng.hash, opts, Minhash, entries)
    requires i < |entries| && !MinhashScans(eng, opts.casRoot.value.cas, entries[i])
    requires forall j :: 0 <= j < i ==> MinhashScans(eng, opts.casRoot.value.cas, entries[j])
    ensures var id := entries[i].documentId;
            DispatchMinhash(eng, target, entries, opts) ==
            Err(if id in opts.casRoot.value.cas then FingerprintFailed else LeafMissing(id))
  {
    hide DispatchMinhash, Ignored, Scan, JaccardPpm;
    var cas := opts.casRoot.value.cas;
    var leaf := MinhashLeaf(eng, cas, target);
    MinhashScanned(eng, target, entries, opts);
    forall j | 0 <= j <= i
      ensures leaf(entries[j]).Ok? <==> MinhashScans(eng, cas, entries[j])
    {
      MinhashScansIff(eng, cas, target, entries[j]);
    }
    FirstFailure(MINHASH_METRIC, leaf, entries, i);
  }

  // ------------------------------------------------------------------------
  // Perceptual hashes
  // ------------------------------------------------------------------------

  /** In how many bits the nearer of the two hashes of a row's image differs from the target's. */
  function ImageDistances(eng: Engine, cas: Cas, target: PerceptualHashes, entries: seq<ManifestEntry>)
    : nat -> Option<nat>
  {
    (r: nat) =>
      if r < |entries| && entries[r].modality.Image? && PerceptualScans(eng, cas, entries[r]) then
        var img := eng.fingerprintImage(cas[entries[r].documentId]).value.0;
        var p := |DifferingPlaces(target.phash, DecodeHex8(img.phash).value)|;
        var q := |DifferingPlaces(target.blockhash, DecodeHex8(img.blockhash).value)|;
        Some(if p <= q then p else q)
      else None
  }

  lemma HexDistanceCounts(t: Hash8, hex: Text)
    requires DecodeHex8(hex).Some?
    ensures HexDistance(Encode(t), hex) == Ok(|DifferingPlaces(t, DecodeHex8(hex).value)|)
  {
    hide Hamming, DecodeHex8, DifferingPlaces;
    HashDecodes(t);
    HammingCounts(t, DecodeHex8(hex).value);
  }

  lemma PerceptualScoreCounts(eng: Engine, cas: Cas, target: PerceptualHashes, entries: seq<ManifestEntry>, r: nat)
    requires r < |entries|
    ensures Tolerant(PerceptualLeaf(eng, cas, target))(entries[r]) == Ok(ImageDistances(eng, cas, target, entries)(r))
  {
    hide HexDistance, DecodeHex8, DifferingPlaces;
    PerceptualScansIff(eng, cas, target, entries[r]);
    if entries[r].modality.Image? && PerceptualScans(eng, cas, entries[r]) {
      var img := eng.fingerprintImage(cas[entries[r].documentId]).value.0;
      HexDistanceCounts(target.phash, img.phash);
      HexDistanceCounts(target.blockhash, img.blockhash);
    }
  }

  /** What a scan cannot have is not in the sidecar either. */
  lemma PerceptualLeftOut(eng: Engine, cas: Cas, e: ManifestEntry)
    requires Fingerprintable(e) ==> e.documentId in cas
    requires !PerceptualScans(eng, cas, e)
    ensures LeafContribution(eng, cas, Perceptual, e).None?
  {
    hide DecodeHex8;
  }

  lemma PerceptualIsTolerant(eng: Engine, target: PerceptualHashes, entries: seq<ManifestEntry>, opts: FuzzyOpts)
    requires opts.casRoot.Some?
    requires Installed(eng, Perceptual, entries, opts) || Ignored(eng.hash, opts, Perceptual, entries)
    requires Ignored(eng.hash, opts, Perceptual, entries) ==>
               forall i :: 0 <= i < |entries| ==> PerceptualScans(eng, opts.casRoot.value.cas, entries[i])
    ensures DispatchPerceptual(eng, target, entries, opts) ==
            ScanAnswer(PERCEPTUAL_METRIC, Tolerant(PerceptualLeaf(eng, opts.casRoot.value.cas, target)), entries)
  {
    hide PerceptualScore, PerceptualScans, RowAgrees, BuiltIndex, Scan, ToBytes, LeafContribution, FromBytes;
    var cas := opts.casRoot.value.cas;
    var leaf := PerceptualLeaf(eng, cas, target);
    forall r: nat | r < |entries|
      ensures leaf(entries[r]).Ok? <==> PerceptualScans(eng, cas, entries[r])
    {
      PerceptualScansIff(eng, cas, target, entries[r]);
    }
    if Installed(eng, Perceptual, entries, opts) {
      var idx := BuiltIndex(eng, cas, Perceptual, entries).value;
      var p, q := HashWord(target.phash), HashWord(target.blockhash);
      var keys := BandPerceptual(p, q);
      var row := PerceptualRow(idx, p, q);
      InstalledStores(eng, Perceptual, entries, opts);
      forall r: nat | r < |entries|
        ensures RowAgrees(eng, cas, Perceptual, PERCEPTUAL_METRIC, keys, Tolerant(leaf), row, entries[r], r)
      {
        PerceptualRowAgrees(eng, cas, target, entries[r], idx, r);
        if leaf(entries[r]).Err? {
          PerceptualLeftOut(eng, cas, entries[r]);
        }
        TolerantRowAgrees(eng, cas, Perceptual, PERCEPTUAL_METRIC, keys, leaf, row, entries[r], r);
      }
      AgreeingRowsFold(eng, Perceptual, entries, opts, PERCEPTUAL_METRIC, keys, Tolerant(leaf), row);
    } else {
      PerceptualScanned(eng, target, entries, opts);
      TolerantSame(PERCEPTUAL_METRIC, leaf, entries, |entries|);
    }
  }

  /** The perceptual dispatcher's answer in the same two situations: the first row whose nearer
      hash differs in the fewest bits, if those are at most six. */
  lemma PerceptualAnswer(eng: Engine, target: PerceptualHashes, entries: seq<ManifestEntry>, opts: FuzzyOpts)
    requires opts.casRoot.Some?
    requires Installed(eng, Perceptual, entries, opts) || Ignored(eng.hash, opts, Perceptual, entries)
    requires Ignored(eng.hash, opts, Perceptual, entries) ==>
               forall i :: 0 <= i < |entries| ==> PerceptualScans(eng, opts.casRoot.value.cas, entries[i])
    ensures var r := DispatchPerceptual(eng, target, entries, opts);
            var f := ImageDistances(eng, opts.casRoot.value.cas, target, entries);
            && (r == Err(NoMatch) <==> forall j: nat :: j < |entries| && f(j).Some? ==> f(j).value > 6)
            && forall row: nat, s: nat :: r == Ok((row, s)) <==> FirstLeast(f, |entries|, 6, row) && f(row) == Some(s)
  {
    hide Ignored, Installed, ScanAnswer, IsFirstBest, PerceptualScans, ImageDistances, Tolerant;
    var cas := opts.casRoot.value.cas;
    var leaf, f := Tolerant(PerceptualLeaf(eng, cas, target)), ImageDistances(eng, cas, target, entries);
    PerceptualIsTolerant(eng, target, entries, opts);
    forall j: nat | j < |entries|
      ensures leaf(entries[j]).Ok? && ScoreOfRow(leaf, entries)(j) == f(j)
    {
      PerceptualScoreCounts(eng, cas, target, entries, j);
    }
    BestBySameScores(leaf, entries, 6, f);
  }

  lemma PerceptualScanFails(eng: Engine, target: PerceptualHashes, entries: seq<ManifestEntry>, opts: FuzzyOpts, i: nat)
    requires opts.casRoot.Some? && Ignored(eng.hash, opts, Perceptual, entries)
    requires i < |entries| && !PerceptualScans(eng, opts.casRoot.value.cas, entries[i])
    requires forall j :: 0 <= j < i ==> PerceptualScans(eng, opts.casRoot.value.cas, entries[j])
    ensures var cas, e := opts.casRoot.value.cas, entries[i];
            DispatchPerceptual(eng, target, entries, opts) ==
            Err(if e.documentId !in cas then LeafMissing(e.documentId)
                else if !Fingerprints(eng, cas, e) then FingerprintFailed
                else BadPerceptualHex)
  {
    hide DispatchPerceptual, Ignored, Scan, Hamming, DecodeHex8;
    var cas := opts.casRoot.value.cas;
    var leaf := PerceptualLeaf(eng, cas, target);
    PerceptualScanned(eng, target, entries, opts);
    forall j | 0 <= j <= i
      ensures leaf(entries[j]).Ok? <==> PerceptualScans(eng, cas, entries[j])
    {
      PerceptualScansIff(eng, cas, target, entries[j]);
    }
    FirstFailure(PERCEPTUAL_METRIC, leaf, entries, i);
  }

  // ------------------------------------------------------------------------
  // ISCC
  // ------------------------------------------------------------------------

  /** In how many bits the body of a row's ISCC differs from the target's. */
  function IsccDistances(eng: Engine, cas: Cas, body: Bytes, entries: seq<ManifestEntry>): nat -> Option<nat> {
    (r: nat) =>
      if r < |entries| && Fingerprintable(entries[r]) && IsccScans(eng, cas, body, entries[r])
      then Some(|DifferingPlaces(body, eng.isccDecode(LeafIscc(eng, cas, entries[r])).value)|)
      else None
  }

  /** Where a leaf has an ISCC body, it is as long as the target's. */
  ghost predicate SameLengths(eng: Engine, cas: Cas, body: Bytes, entries: seq<ManifestEntry>) {
    forall i :: 0 <= i < |entries| ==> SameLength(eng, cas, body, entries[i])
  }

  predicate SameLength(eng: Engine, cas: Cas, body: Bytes, e: ManifestEntry) {
    Fingerprints(eng, cas, e) && eng.isccDecode(LeafIscc(eng, cas, e)).Some? ==>
      |eng.isccDecode(LeafIscc(eng, cas, e)).value| == |body|
  }

  lemma IsccScoreCounts(eng: Engine, cas: Cas, target: string, entries: seq<ManifestEntry>, r: nat)
    requires r < |entries| && eng.isccDecode(target).Some?
    ensures Tolerant(IsccLeaf(eng, cas, target))(entries[r]) ==
            Ok(IsccDistances(eng, cas, eng.isccDecode(target).value, entries)(r))
  {
    hide Hamming, DifferingPlaces;
    IsccScansIff(eng, cas, target, entries[r]);
    if Fingerprintable(entries[r]) && IsccScans(eng, cas, eng.isccDecode(target).value, entries[r]) {
      HammingCounts(eng.isccDecode(target).value, eng.isccDecode(LeafIscc(eng, cas, entries[r])).value);
    }
  }

  /** What a scan cannot have is not in the sidecar either. */
  lemma IsccLeftOut(eng: Engine, cas: Cas, body: Bytes, e: ManifestEntry)
    requires Fingerprintable(e) ==> e.documentId in cas
    requires !IsccScans(eng, cas, body, e) && SameLength(eng, cas, body, e)
    ensures LeafContribution(eng, cas, Iscc, e).None?
  {
  }

  lemma IsccIsTolerant(eng: Engine, target: string, entries: seq<ManifestEntry>, opts: FuzzyOpts)
    requires opts.casRoot.Some? && eng.isccDecode(target).Some?
    requires SameLengths(eng, opts.casRoot.value.cas, eng.isccDecode(target).value, entries)
    requires Installed(eng, Iscc, entries, opts) || Ignored(eng.hash, opts, Iscc, entries)
    requires Ignored(eng.hash, opts, Iscc, entries) ==>
               forall i :: 0 <= i < |entries| ==>
                 IsccScans(eng, opts.casRoot.value.cas, eng.isccDecode(target).value, entries[i])
    ensures DispatchIscc(eng, target, entries, opts) ==
            ScanAnswer(ISCC_METRIC, Tolerant(IsccLeaf(eng, opts.casRoot.value.cas, target)), entries)
  {
    hide IsccScore, IsccScans, RowAgrees, BuiltIndex, Scan, ToBytes, LeafContribution, FromBytes, SameLength;
    var cas := opts.casRoot.value.cas;
    var leaf := IsccLeaf(eng, cas, target);
    forall r: nat | r < |entries|
      ensures leaf(entries[r]).Ok? <==> IsccScans(eng, cas, eng.isccDecode(target).value, entries[r])
    {
      IsccScansIff(eng, cas, target, entries[r]);
    }
    if Installed(eng, Iscc, entries, opts) {
      var idx := BuiltIndex(eng, cas, Iscc, entries).value;
      var body := eng.isccDecode(target).value;
      var keys := BandIscc(eng.hash, body);
      var row := IsccRow(idx, PackIsccBody(body));
      InstalledStores(eng, Iscc, entries, opts);
      forall r: nat | r < |entries|
        ensures RowAgrees(eng, cas, Iscc, ISCC_METRIC, keys, Tolerant(leaf), row, entries[r], r)
      {
        IsccRowAgrees(eng, cas, target, entries[r], idx, r);
        if leaf(entries[r]).Err? {
          IsccLeftOut(eng, cas, eng.isccDecode(target).value, entries[r]);
        }
        TolerantRowAgrees(eng, cas, Iscc, ISCC_METRIC, keys, leaf, row, entries[r], r);
      }
      AgreeingRowsFold(eng, Iscc, entries, opts, ISCC_METRIC, keys, Tolerant(leaf), row);
    } else {
      IsccScanned(eng, target, entries, opts);
      TolerantSame(ISCC_METRIC, leaf, entries, |entries|);
    }
  }

  /** The ISCC dispatcher's answer for a target that decodes, by a sidecar whose bodies have its
      length, or by a scan that can score every leaf: the first row whose body differs in the
      fewest bits, if those are at most four. */
  lemma IsccAnswer(eng: Engine, target: string, entries: seq<ManifestEntry>, opts: FuzzyOpts)
    requires opts.casRoot.Some? && eng.isccDecode(target).Some?
    requires Installed(eng, Iscc, entries, opts) || Ignored(eng.hash, opts, Iscc, entries)
    requires SameLengths(eng, opts.casRoot.value.cas, eng.isccDecode(target).value, entries)
    requires Ignored(eng.hash, opts, Iscc, entries) ==>
               forall i :: 0 <= i < |entries| ==>
                 IsccScans(eng, opts.casRoot.value.cas, eng.isccDecode(target).value, entries[i])
    ensures var r := DispatchIscc(eng, target, entries, opts);
            var f := IsccDistances(eng, opts.casRoot.value.cas, eng.isccDecode(target).value, entries);
            && (r == Err(NoMatch) <==> forall j: nat :: j < |entries| && f(j).Some? ==> f(j).value > 4)
            && forall row: nat, s: nat :: r == Ok((row, s)) <==> FirstLeast(f, |entries|, 4, row) && f(row) == Some(s)
  {
    hide Ignored, Installed, ScanAnswer, IsFirstBest, IsccScans, IsccDistances, Tolerant;
    var cas, body := opts.casRoot.value.cas, eng.isccDecode(target).value;
    var leaf, f := Tolerant(IsccLeaf(eng, cas, target)), IsccDistances(eng, cas, body, entries);
    IsccIsTolerant(eng, target, entries, opts);
    forall j: nat | j < |entries|
      ensures leaf(entries[j]).Ok? && ScoreOfRow(leaf, entries)(j) == f(j)
    {
      IsccScoreCounts(eng, cas, target, entries, j);
    }
    BestBySameScores(leaf, entries, 4, f);
  }

  lemma IsccScanFails(eng: Engine, target: string, entries: seq<ManifestEntry>, opts: FuzzyOpts, i: nat)
    requires opts.casRoot.Some? && Ignored(eng.hash, opts, Iscc, entries) && eng.isccDecode(target).Some?
    requires i < |entries|
    requires !IsccScans(eng, opts.casRoot.value.cas, eng.isccDecode(target).value, entries[i])
    requires forall j :: 0 <= j < i ==>
               IsccScans(eng, opts.casRoot.value.cas, eng.isccDecode(target).value, entries[j])
    ensures var cas, e, body := opts.casRoot.value.cas, entries[i], eng.isccDecode(target).value;
            DispatchIscc(eng, target, entries, opts) ==
            Err(if e.documentId !in cas then LeafMissing(e.documentId)
                else if !Fingerprints(eng, cas, e) then FingerprintFailed
                else if eng.isccDecode(LeafIscc(eng, cas, e)).None? then IsccUndecodable
                else IsccLengthMismatch(|body|, |eng.isccDecode(LeafIscc(eng, cas, e)).value|))
  {
    hide DispatchIscc, Ignored, Scan, Hamming;
    var cas := opts.casRoot.value.cas;
    var leaf := IsccLeaf(eng, cas, target);
    IsccScanned(eng, target, entries, opts);
    forall j | 0 <= j <= i
      ensures leaf(entries[j]).Ok? <==> IsccScans(eng, cas, eng.isccDecode(target).value, entries[j])
    {
      IsccScansIff(eng, cas, target, entries[j]);
    }
    FirstFailure(ISCC_METRIC, leaf, entries, i);
  }
}
