/** The step after a fuzzy dispatch: the answered row is looked up in the manifest, and a row
    that is not there panics. */
module FuzzyEntry {
  import opened Basics
  import opened Ordering
  import opened Merkle
  import opened Manifest
  import opened Banding
  import opened Sidecar
  import opened SidecarFormat
  import opened FuzzyBuild
  import opened FuzzyProve
  import opened FuzzyAnswer

  /** `&entries[leaf_index]`. */
  function MatchedEntry(answer: FuzzyResult<(nat, nat)>, entries: seq<ManifestEntry>): FuzzyResult<ManifestEntry> {
    var found :- answer;
    if found.0 < |entries| then Ok(entries[found.0]) else Err(Panicked)
  }

  // ------------------------------------------------------------------------
  // Which row the fast path answers with
  // ------------------------------------------------------------------------

  predicate Counts(m: Metric, score: nat -> Option<nat>, r: nat) {
    score(r).Some? && m.Qualifies(score(r).value)
  }

  /** The first of the listed rows with the best qualifying score. */
  ghost predicate IsBestOf(m: Metric, score: nat -> Option<nat>, rows: seq<int>, best: Best) {
    match best
    case None => forall r: nat :: r in rows ==> !Counts(m, score, r)
    case Some((row, s)) =>
      && row in rows && Counts(m, score, row) && score(row).value == s
      && forall r: nat :: r in rows && Counts(m, score, r) ==>
           !m.Improves(score(r).value, s) && (r < row ==> m.Improves(s, score(r).value))
  }

  lemma {:induction false} FoldRowsIsBest(m: Metric, score: nat -> Option<nat>, rows: seq<int>)
    requires Ascending(rows) && forall i :: 0 <= i < |rows| ==> rows[i] >= 0
    ensures IsBestOf(m, score, rows, FoldRows(m, score, rows, None))
  {
    hide IsBestOf, KeepOpt;
    if rows == [] {
      NoRowsNoBest(m, score);
    } else {
      var k := |rows| - 1;
      FoldRowsIsBest(m, score, rows[..k]);
      assert rows == rows[..k] + [rows[k]];
      KeepIsBest(m, score, rows[..k], rows[k], FoldRows(m, score, rows[..k], None));
    }
  }

  lemma NoRowsNoBest(m: Metric, score: nat -> Option<nat>)
    ensures IsBestOf(m, score, [], None)
  {
  }

  lemma KeepIsBest(m: Metric, score: nat -> Option<nat>, rows: seq<int>, k: nat, best: Best)
    requires IsBestOf(m, score, rows, best) && forall i :: 0 <= i < |rows| ==> rows[i] < k
    ensures IsBestOf(m, score, rows + [k], KeepOpt(m, best, k, score(k)))
  {
  }

  /** A row past the end of the manifest qualifies, and better than every row within. */
  ghost predicate WinsPastEnd(m: Metric, score: nat -> Option<nat>, rows: seq<int>, n: nat, r: nat) {
    && r in rows && r >= n && Counts(m, score, r)
    && forall q: nat :: q in rows && q < n && Counts(m, score, q) ==> m.Improves(score(r).value, score(q).value)
  }

  lemma PastEndIff(m: Metric, score: nat -> Option<nat>, rows: seq<int>, n: nat)
    requires Ascending(rows) && forall i :: 0 <= i < |rows| ==> rows[i] >= 0
    ensures var best := FoldRows(m, score, rows, None);
            (best.Some? && best.value.0 >= n) <==> exists r: nat :: WinsPastEnd(m, score, rows, n, r)
  {
    FoldRowsIsBest(m, score, rows);
    var best := FoldRows(m, score, rows, None);
    if best.Some? && best.value.0 >= n {
      assert WinsPastEnd(m, score, rows, n, best.value.0);
    }
  }

  // ------------------------------------------------------------------------
  // When the lookup panics
  // ------------------------------------------------------------------------

  /** The sidecar of this kind is used, and its best row for the query is past the manifest's end. */
  ghost predicate BestPastEnd(H: Hasher, opts: FuzzyOpts, kind: SubIndexKind, entries: seq<ManifestEntry>,
                              m: Metric, keys: seq<BandKey>, rowOf: FuzzyIndex -> nat -> Option<nat>) {
    && Binds(H, opts, kind, entries)
    && var idx := FuzzyIndexFor(H, opts, kind, entries).value.value;
       exists r: nat :: WinsPastEnd(m, rowOf(idx), Candidates(idx, keys), |entries|, r)
  }

  /** The sidecar of this kind is read, and reading it panics. */
  predicate ParsingPanics(H: Hasher, opts: FuzzyOpts, kind: SubIndexKind) {
    Consulted(opts, kind) && DeclaresTooMany(H, opts.casRoot.value.sidecars[kind])
  }

  lemma IndexedLookup(H: Hasher, opts: FuzzyOpts, kind: SubIndexKind, entries: seq<ManifestEntry>,
                      m: Metric, keys: seq<BandKey>, rowOf: FuzzyIndex -> nat -> Option<nat>, idx: FuzzyIndex)
    requires FuzzyIndexFor(H, opts, kind, entries) == Ok(Some(idx))
    ensures MatchedEntry(Answer(IndexedBest(m, idx, keys, rowOf(idx))), entries) == Err(Panicked)
       <==> BestPastEnd(H, opts, kind, entries, m, keys, rowOf)
  {
    hide WinsPastEnd, FoldRows, Candidates, FuzzyIndexFor;
    CandidateRowsAreRows(idx, keys);
    CandidatesSpec(idx, keys);
    PastEndIff(m, rowOf(idx), Candidates(idx, keys), |entries|);
  }

  /** A scan answers with a row it has visited. */
  lemma ScanLookup(m: Metric, leaf: LeafScore, entries: seq<ManifestEntry>)
    ensures MatchedEntry(ScanAnswer(m, leaf, entries), entries) == Err(Panicked) <==>
                ScanAnswer(m, leaf, entries) == Err(Panicked)
  {
    if Scan(m, leaf, entries, |entries|).Ok? {
      ScanIsFirstBest(m, leaf, entries);
    }
  }

  /** After a dispatch the lookup panics exactly when the dispatcher has, or the sidecar it used
      ranks a row first that the manifest does not have. */
  lemma LookupPanicsExactly(eng: Engine, entries: seq<ManifestEntry>, opts: FuzzyOpts,
                            text: MinHash, image: PerceptualHashes, code: string)
    ensures MatchedEntry(DispatchMinhash(eng, text, entries, opts), entries) == Err(Panicked) <==>
              || ParsingPanics(eng.hash, opts, Minhash)
              || BestPastEnd(eng.hash, opts, Minhash, entries, MINHASH_METRIC, BandMinhash(eng.hash, text),
                             idx => MinhashRow(idx, text))
    ensures var p, q := HashWord(image.phash), HashWord(image.blockhash);
            MatchedEntry(DispatchPerceptual(eng, image, entries, opts), entries) == Err(Panicked) <==>
              || ParsingPanics(eng.hash, opts, Perceptual)
              || BestPastEnd(eng.hash, opts, Perceptual, entries, PERCEPTUAL_METRIC, BandPerceptual(p, q),
                             idx => PerceptualRow(idx, p, q))
    ensures MatchedEntry(DispatchIscc(eng, code, entries, opts), entries) == Err(Panicked) <==>
              || ParsingPanics(eng.hash, opts, Iscc)
              || (eng.isccDecode(code).Some?
                  && var body := eng.isccDecode(code).value;
                     BestPastEnd(eng.hash, opts, Iscc, entries, ISCC_METRIC, BandIscc(eng.hash, body),
                                 idx => IsccRow(idx, PackIsccBody(body))))
  {
    MinhashLookup(eng, entries, opts, text);
    PerceptualLookup(eng, entries, opts, image);
    IsccLookup(eng, entries, opts, code);
  }

  lemma MinhashLookup(eng: Engine, entries: seq<ManifestEntry>, opts: FuzzyOpts, text: MinHash)
    ensures MatchedEntry(DispatchMinhash(eng, text, entries, opts), entries) == Err(Panicked) <==>
              || ParsingPanics(eng.hash, opts, Minhash)
              || BestPastEnd(eng.hash, opts, Minhash, entries, MINHASH_METRIC, BandMinhash(eng.hash, text),
                             idx => MinhashRow(idx, text))
  {
    hide FuzzyIndexFor, Consulted, DeclaresTooMany, ScanAnswer, IndexedBest, WinsPastEnd, Candidates;
    LookupPanicsIff(eng.hash, opts, Minhash, entries);
    var found := FuzzyIndexFor(eng.hash, opts, Minhash, entries);
    if found.Ok? && found.value.Some? {
      var idx := found.value.value;
      var rowOf := (idx: FuzzyIndex) => MinhashRow(idx, text);
      IndexedLookup(eng.hash, opts, Minhash, entries, MINHASH_METRIC, BandMinhash(eng.hash, text), rowOf, idx);
    } else if found.Ok? && opts.casRoot.Some? {
      var leaf := MinhashLeaf(eng, opts.casRoot.value.cas, text);
      ScanDoesNotPanic(MINHASH_METRIC, leaf, entries);
      ScanLookup(MINHASH_METRIC, leaf, entries);
    }
  }

  lemma PerceptualLookup(eng: Engine, entries: seq<ManifestEntry>, opts: FuzzyOpts, image: PerceptualHashes)
    ensures var p, q := HashWord(image.phash), HashWord(image.blockhash);
            MatchedEntry(DispatchPerceptual(eng, image, entries, opts), entries) == Err(Panicked) <==>
              || ParsingPanics(eng.hash, opts, Perceptual)
              || BestPastEnd(eng.hash, opts, Perceptual, entries, PERCEPTUAL_METRIC, BandPerceptual(p, q),
                             idx => PerceptualRow(idx, p, q))
  {
    hide FuzzyIndexFor, Consulted, DeclaresTooMany, ScanAnswer, IndexedBest, WinsPastEnd, Candidates;
    LookupPanicsIff(eng.hash, opts, Perceptual, entries);
    var found := FuzzyIndexFor(eng.hash, opts, Perceptual, entries);
    var p, q := HashWord(image.phash), HashWord(image.blockhash);
    if found.Ok? && found.value.Some? {
      var idx := found.value.value;
      var rowOf := (idx: FuzzyIndex) => PerceptualRow(idx, p, q);
      IndexedLookup(eng.hash, opts, Perceptual, entries, PERCEPTUAL_METRIC, BandPerceptual(p, q), rowOf, idx);
    } else if found.Ok? && opts.casRoot.Some? {
      var leaf := PerceptualLeaf(eng, opts.casRoot.value.cas, image);
      ScanDoesNotPanic(PERCEPTUAL_METRIC, leaf, entries);
      ScanLookup(PERCEPTUAL_METRIC, leaf, entries);
    }
  }

  lemma IsccLookup(eng: Engine, entries: seq<ManifestEntry>, opts: FuzzyOpts, code: string)
    ensures MatchedEntry(DispatchIscc(eng, code, entries, opts), entries) == Err(Panicked) <==>
              || ParsingPanics(eng.hash, opts, Iscc)
              || (eng.isccDecode(code).Some?
                  && var body := eng.isccDecode(code).value;
                     BestPastEnd(eng.hash, opts, Iscc, entries, ISCC_METRIC, BandIscc(eng.hash, body),
                                 idx => IsccRow(idx, PackIsccBody(body))))
  {
    hide FuzzyIndexFor, Consulted, DeclaresTooMany, ScanAnswer, IndexedBest, WinsPastEnd, Candidates;
    LookupPanicsIff(eng.hash, opts, Iscc, entries);
    var found := FuzzyIndexFor(eng.hash, opts, Iscc, entries);
    if found.Ok? && found.value.Some? {
      if eng.isccDecode(code).Some? {
        var idx, body := found.value.value, eng.isccDecode(code).value;
        var rowOf := (idx: FuzzyIndex) => IsccRow(idx, PackIsccBody(body));
        IndexedLookup(eng.hash, opts, Iscc, entries, ISCC_METRIC, BandIscc(eng.hash, body), rowOf, idx);
      }
    } else if found.Ok? && opts.casRoot.Some? {
      var leaf := IsccLeaf(eng, opts.casRoot.value.cas, code);
      ScanDoesNotPanic(ISCC_METRIC, leaf, entries);
      ScanLookup(ISCC_METRIC, leaf, entries);
    }
  }

  lemma ScanDoesNotPanic(m: Metric, leaf: LeafScore, entries: seq<ManifestEntry>)
    requires forall i :: 0 <= i < |entries| ==> leaf(entries[i]) != Err(Panicked)
    ensures ScanAnswer(m, leaf, entries) != Err(Panicked)
  {
    ScanErrorIsALeafs(m, leaf, entries, |entries|, Panicked);
  }

  /** A sidecar the builder wrote for this manifest has no row past its end, for any query. */
  lemma BuiltRowsAreInManifest(eng: Engine, kind: SubIndexKind, entries: seq<ManifestEntry>, opts: FuzzyOpts,
                               m: Metric, keys: seq<BandKey>, rowOf: FuzzyIndex -> nat -> Option<nat>)
    requires Installed(eng, kind, entries, opts)
    ensures !BestPastEnd(eng.hash, opts, kind, entries, m, keys, rowOf) && !ParsingPanics(eng.hash, opts, kind)
  {
    hide BuiltIndex, ToBytes, FuzzyIndexFor, DeclaresTooMany, Candidates;
    var cas := opts.casRoot.value.cas;
    var idx := BuiltIndex(eng, cas, kind, entries).value;
    BuiltIndexLoads(eng, kind, entries, idx, opts);
    BuiltIndexAnswers(eng, cas, kind, entries, idx);
    LookupPanicsIff(eng.hash, opts, kind, entries);
    CandidatesSpec(idx, keys);
    forall r: nat | r in Candidates(idx, keys)
      ensures r < |entries|
    {
      var k :| k in keys && Lookup(idx.buckets, k).Some? && r in Lookup(idx.buckets, k).value;
      assert Holds(idx.buckets, k, r);
    }
  }

  // ------------------------------------------------------------------------
  // The entry that is matched
  // ------------------------------------------------------------------------

  /** A MinHash match is the entry whose text agrees with the target in the most components, the
      first of these, if in 109 or more; otherwise there is none. */
  lemma MinhashMatch(eng: Engine, target: MinHash, entries: seq<ManifestEntry>, opts: FuzzyOpts, row: nat)
    requires opts.casRoot.Some?
    requires Installed(eng, Minhash, entries, opts) || Ignored(eng.hash, opts, Minhash, entries)
    requires Ignored(eng.hash, opts, Minhash, entries) ==>
               forall i :: 0 <= i < |entries| ==> MinhashScans(eng, opts.casRoot.value.cas, entries[i])
    requires FirstMost(TextAgreements(eng, opts.casRoot.value.cas, target, entries), |entries|, 109, row)
    ensures MatchedEntry(DispatchMinhash(eng, target, entries, opts), entries) == Ok(entries[row])
  {
    hide Ignored, Installed, MinhashScans, TextAgreements;
    MinhashAnswer(eng, target, entries, opts);
    var f := TextAgreements(eng, opts.casRoot.value.cas, target, entries);
    assert DispatchMinhash(eng, target, entries, opts) == Ok((row, f(row).value * 1_000_000 / 128));
  }

  /** A perceptual match is the first entry whose nearer hash differs least, if in six bits or fewer. */
  lemma PerceptualMatch(eng: Engine, target: PerceptualHashes, entries: seq<ManifestEntry>, opts: FuzzyOpts, row: nat)
    requires opts.casRoot.Some?
    requires Installed(eng, Perceptual, entries, opts) || Ignored(eng.hash, opts, Perceptual, entries)
    requires Ignored(eng.hash, opts, Perceptual, entries) ==>
               forall i :: 0 <= i < |entries| ==> PerceptualScans(eng, opts.casRoot.value.cas, entries[i])
    requires FirstLeast(ImageDistances(eng, opts.casRoot.value.cas, target, entries), |entries|, 6, row)
    ensures MatchedEntry(DispatchPerceptual(eng, target, entries, opts), entries) == Ok(entries[row])
  {
    hide Ignored, Installed, PerceptualScans, ImageDistances;
    PerceptualAnswer(eng, target, entries, opts);
    var f := ImageDistances(eng, opts.casRoot.value.cas, target, entries);
    assert DispatchPerceptual(eng, target, entries, opts) == Ok((row, f(row).value));
  }

  /** An ISCC match is the first entry whose body differs least, if in four bits or fewer. */
  lemma IsccMatch(eng: Engine, target: string, entries: seq<ManifestEntry>, opts: FuzzyOpts, row: nat)
    requires opts.casRoot.Some? && eng.isccDecode(target).Some?
    requires Installed(eng, Iscc, entries, opts) || Ignored(eng.hash, opts, Iscc, entries)
    requires SameLengths(eng, opts.casRoot.value.cas, eng.isccDecode(target).value, entries)
    requires Ignored(eng.hash, opts, Iscc, entries) ==>
               forall i :: 0 <= i < |entries| ==>
                 IsccScans(eng, opts.casRoot.value.cas, eng.isccDecode(target).value, entries[i])
    requires FirstLeast(IsccDistances(eng, opts.casRoot.value.cas, eng.isccDecode(target).value, entries),
                        |entries|, 4, row)
    ensures MatchedEntry(DispatchIscc(eng, target, entries, opts), entries) == Ok(entries[row])
  {
    hide Ignored, Installed, IsccScans, IsccDistances, SameLengths;
    IsccAnswer(eng, target, entries, opts);
    var f := IsccDistances(eng, opts.casRoot.value.cas, eng.isccDecode(target).value, entries);
    assert DispatchIscc(eng, target, entries, opts) == Ok((row, f(row).value));
  }

  // ------------------------------------------------------------------------
  // A bound sidecar that panics
  // ------------------------------------------------------------------------

  /** A sidecar of one signature, of a row the manifest does not have. */
  function StrayIndex(H: Hasher, entries: seq<ManifestEntry>, text: MinHash): FuzzyIndex
    requires |entries| < 0x1_0000_0000_0000_0000
  {
    FuzzyIndex(Minhash, MTH(H, DocumentIds(entries)), 128, 32, 4, [SigEntry(|entries|, text)],
               [Bucket(BandMinhash(H, text)[0], [|entries|])])
  }

  /** It binds to the manifest, whatever that is, and the query it was made for panics. */
  lemma StrayRowPanics(eng: Engine, entries: seq<ManifestEntry>, text: MinHash, cas: Cas) returns (opts: FuzzyOpts)
    requires |entries| < 0x1_0000_0000_0000_0000
    ensures Binds(eng.hash, opts, Minhash, entries)
    ensures DispatchMinhash(eng, text, entries, opts) == Ok((|entries|, 1_000_000))
    ensures MatchedEntry(DispatchMinhash(eng, text, entries, opts), entries) == Err(Panicked)
  {
    hide FromBytes, ToBytes, BandMinhash, MTH, FoldRows;
    var idx := StrayIndex(eng.hash, entries, text);
    opts := FuzzyOpts(Some(CasRoot(cas, map[Minhash := ToBytes(eng.hash, idx)])), false);
    ParseOfPrint(eng.hash, idx);
    assert FuzzyIndexFor(eng.hash, opts, Minhash, entries) == Ok(Some(idx));
    StrayAnswer(eng.hash, entries, text);
  }

  lemma StrayAnswer(H: Hasher, entries: seq<ManifestEntry>, text: MinHash)
    requires |entries| < 0x1_0000_0000_0000_0000
    ensures var idx := StrayIndex(H, entries, text);
            IndexedBest(MINHASH_METRIC, idx, BandMinhash(H, text), MinhashRow(idx, text)) ==
                Some((|entries|, 1_000_000))
  {
    hide BandMinhash, MTH;
    var idx, keys, n := StrayIndex(H, entries, text), BandMinhash(H, text), |entries|;
    var rows, score := Candidates(idx, keys), MinhashRow(idx, text);
    CandidateRowsAreRows(idx, keys);
    CandidatesSpec(idx, keys);
    assert keys[0] in keys && Lookup(idx.buckets, keys[0]) == Some([n]);
    forall r | r in rows
      ensures r == n
    {
      var k :| k in keys && Lookup(idx.buckets, k).Some? && r in Lookup(idx.buckets, k).value;
      LookupPresent(idx.buckets, k);
      assert Bucket(k, Lookup(idx.buckets, k).value) == idx.buckets[0];
    }
    assert InSomeBucket(idx.buckets, keys, n);
    SignatureFinds(idx, n);
    assert idx.signatures[0] in idx.signatures;
    MatchesAll(text, text);
    assert score(n) == Some(1_000_000);
    FoldRowsIsBest(MINHASH_METRIC, score, rows);
    assert Counts(MINHASH_METRIC, score, n);
  }
}
