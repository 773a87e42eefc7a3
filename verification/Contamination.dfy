/** `scan`: inverted indexes over the shingles of every benchmark item, against the check of
    every document with every item. */
module Contamination {
  import opened Basics
  import opened Ordering
  import opened Shingles
  import opened Banding
  import opened TextMinhash
  import DedupSpec

  const EXACT_N: nat := 13
  const NEAR_N: nat := 5
  const CONTAINMENT_THRESHOLD: real := 0.9

  /** An item or a document, reduced to what the signals need. */
  datatype Features = Features(exact: seq<int>, near: seq<int>, signature: MinHash)

  datatype BenchItem = BenchItem(id: string, features: Features)

  datatype Benchmark = Benchmark(name: string, items: seq<BenchItem>)

  datatype Doc = Doc(id: string, text: Bytes)

  datatype Hit = Hit(
    benchmark: string,
    itemId: string,
    docId: string,
    sharedExact: nat,
    jaccard: real,
    containment: real,
    exact: bool,
    near: bool,
    contained: bool)

  datatype CorpusStats = CorpusStats(docs: nat, words: nat)

  /** An item's position: its benchmark and its place there. */
  type ItemRef = (nat, nat)

  // ------------------------------------------------------------------------
  // The signals
  // ------------------------------------------------------------------------

  function Containment(shared: nat, size: nat): real {
    if size == 0 then 0.0 else shared as real / size as real
  }

  /** The hit for these values, if a signal fires. */
  function HitOf(bench: string, item: BenchItem, docId: string, sharedExact: nat, jaccard: real, containment: real,
                 threshold: real): Option<Hit> {
    var exact, near, contained := sharedExact > 0, jaccard >= threshold, containment >= CONTAINMENT_THRESHOLD;
    if exact || near || contained then
      Some(Hit(bench, item.id, docId, sharedExact, jaccard, containment, exact, near, contained))
    else None
  }

  function Estimate(doc: Features, item: Features): real {
    DedupSpec.JaccardEstimate(doc.signature, item.signature)
  }

  /** The code's verdict for given shared counts: without a shared 5-gram the estimate is zero. */
  function HitFor(bench: string, item: BenchItem, docId: string, doc: Features, sharedExact: nat, sharedNear: nat,
                  threshold: real): Option<Hit> {
    HitOf(bench, item, docId, sharedExact, if sharedNear > 0 then Estimate(doc, item.features) else 0.0,
          Containment(sharedNear, |item.features.near|), threshold)
  }

  // ------------------------------------------------------------------------
  // Items in order
  // ------------------------------------------------------------------------

  predicate ValidRef(benchmarks: seq<Benchmark>, r: ItemRef) {
    r.0 < |benchmarks| && r.1 < |benchmarks[r.0].items|
  }

  function ItemAt(benchmarks: seq<Benchmark>, r: ItemRef): BenchItem
    requires ValidRef(benchmarks, r)
  {
    benchmarks[r.0].items[r.1]
  }

  predicate RefLess(a: ItemRef, b: ItemRef) {
    a.0 < b.0 || (a.0 == b.0 && a.1 < b.1)
  }

  predicate RefLeq(a: ItemRef, b: ItemRef) {
    a == b || RefLess(a, b)
  }

  ghost predicate AscendingRefs(refs: seq<ItemRef>) {
    forall i, j :: 0 <= i < j < |refs| ==> RefLess(refs[i], refs[j])
  }

  function RefsOf(b: nat, items: nat): (refs: seq<ItemRef>)
    ensures |refs| == items && forall i :: 0 <= i < items ==> refs[i] == (b, i)
  {
    seq(items, i requires 0 <= i < items => (b, i))
  }

  /** The items of the benchmarks from b on. */
  function RefsFrom(benchmarks: seq<Benchmark>, b: nat): seq<ItemRef>
    requires b <= |benchmarks|
    decreases |benchmarks| - b
  {
    if b == |benchmarks| then [] else RefsOf(b, |benchmarks[b].items|) + RefsFrom(benchmarks, b + 1)
  }

  lemma {:induction false} RefsFromSpec(benchmarks: seq<Benchmark>, b: nat)
    requires b <= |benchmarks|
    ensures AscendingRefs(RefsFrom(benchmarks, b))
    ensures forall r :: r in RefsFrom(benchmarks, b) <==> ValidRef(benchmarks, r) && b <= r.0
    decreases |benchmarks| - b
  {
    if b < |benchmarks| {
      RefsFromSpec(benchmarks, b + 1);
      var here, later := RefsOf(b, |benchmarks[b].items|), RefsFrom(benchmarks, b + 1);
      forall r: ItemRef
        ensures r in here <==> ValidRef(benchmarks, r) && r.0 == b
      {
        if ValidRef(benchmarks, r) && r.0 == b {
          assert here[r.1] == r;
        }
      }
      forall i, j | 0 <= i < j < |here + later|
        ensures RefLess((here + later)[i], (here + later)[j])
      {
        if i < |here| <= j {
          assert later[j - |here|] in later;
        }
      }
    }
  }

  // ------------------------------------------------------------------------
  // The specification: every document against every item
  // ------------------------------------------------------------------------

  /** The size of the intersection of two shingle sets. */
  ghost function Shared(a: seq<int>, b: seq<int>): nat {
    |ToSet(a) * ToSet(b)|
  }

  /** The code's check of one document with one item. */
  ghost function Judge(benchmarks: seq<Benchmark>, r: ItemRef, docId: string, doc: Features,
                       threshold: real): Option<Hit>
    requires ValidRef(benchmarks, r)
  {
    var item := ItemAt(benchmarks, r);
    HitFor(benchmarks[r.0].name, item, docId, doc, Shared(doc.exact, item.features.exact),
           Shared(doc.near, item.features.near), threshold)
  }

  /** The documented check: any of the three signals, each on its own. */
  ghost function Documented(benchmarks: seq<Benchmark>, r: ItemRef, docId: string, doc: Features,
                            threshold: real): Option<Hit>
    requires ValidRef(benchmarks, r)
  {
    var item := ItemAt(benchmarks, r);
    HitOf(benchmarks[r.0].name, item, docId, Shared(doc.exact, item.features.exact), Estimate(doc, item.features),
          Containment(Shared(doc.near, item.features.near), |item.features.near|), threshold)
  }

  /** The document and the item have some shingle in common. */
  ghost predicate Surfaces(benchmarks: seq<Benchmark>, r: ItemRef, doc: Features)
    requires ValidRef(benchmarks, r)
  {
    var item := ItemAt(benchmarks, r);
    Shared(doc.exact, item.features.exact) > 0 || Shared(doc.near, item.features.near) > 0
  }

  ghost predicate AllValid(benchmarks: seq<Benchmark>, refs: seq<ItemRef>) {
    forall k :: 0 <= k < |refs| ==> ValidRef(benchmarks, refs[k])
  }

  /** Which pairs are judged and how: the listed ones as the code does, those of them that
      surface as the code does, or all as documented. */
  datatype Mode = Listed | Surfacing | AsDocumented

  ghost function VerdictIn(mode: Mode, benchmarks: seq<Benchmark>, r: ItemRef, docId: string, doc: Features,
                           threshold: real)
    : Option<Hit>
    requires ValidRef(benchmarks, r)
  {
    match mode
    case Listed => Judge(benchmarks, r, docId, doc, threshold)
    case Surfacing => if Surfaces(benchmarks, r, doc) then Judge(benchmarks, r, docId, doc, threshold) else None
    case AsDocumented => Documented(benchmarks, r, docId, doc, threshold)
  }

  /** The hits of a document with these items, in their order. */
  ghost function HitsAt(benchmarks: seq<Benchmark>, refs: seq<ItemRef>, docId: string, doc: Features, threshold: real,
                        mode: Mode): seq<Hit>
    requires AllValid(benchmarks, refs)
  {
    if refs == [] then []
    else
      var verdict := VerdictIn(mode, benchmarks, refs[0], docId, doc, threshold);
      var rest := HitsAt(benchmarks, refs[1..], docId, doc, threshold, mode);
      if verdict.Some? then [verdict.value] + rest else rest
  }

  /** The kernel's signature and the shingle sets of a normalized text. */
  function FeaturesOf(H: Hasher, kernel: Bytes -> MinHash, text: Bytes): Features {
    Features(ShingleSet(H, text, EXACT_N), ShingleSet(H, text, NEAR_N), kernel(text))
  }

  ghost function AllHits(H: Hasher, kernel: Bytes -> MinHash, docs: seq<Doc>, benchmarks: seq<Benchmark>,
                         threshold: real, mode: Mode): seq<Hit>
  {
    if docs == [] then []
    else
      RefsFromSpec(benchmarks, 0);
      AllHits(H, kernel, docs[..|docs| - 1], benchmarks, threshold, mode)
      + HitsAt(benchmarks, RefsFrom(benchmarks, 0), docs[|docs| - 1].id, FeaturesOf(H, kernel, docs[|docs| - 1].text),
               threshold, mode)
  }

  predicate HitLeq(a: Hit, b: Hit) {
    var (x, y) := ((Codes(a.benchmark), Codes(a.itemId), Codes(a.docId)),
                   (Codes(b.benchmark), Codes(b.itemId), Codes(b.docId)));
    LexLess(x.0, y.0) || (x.0 == y.0 && (LexLess(x.1, y.1) || (x.1 == y.1 && LexLeq(x.2, y.2))))
  }

  /** The report through the indexes: the pairs that surface, the hits in order. */
  ghost function IndexedReport(H: Hasher, kernel: Bytes -> MinHash, docs: seq<Doc>, benchmarks: seq<Benchmark>,
                               threshold: real): seq<Hit> {
    SortBy(HitLeq, AllHits(H, kernel, docs, benchmarks, threshold, Surfacing))
  }

  /** The brute-force report: every pair held against the documented signals. */
  ghost function BruteForce(H: Hasher, kernel: Bytes -> MinHash, docs: seq<Doc>, benchmarks: seq<Benchmark>,
                            threshold: real): seq<Hit> {
    SortBy(HitLeq, AllHits(H, kernel, docs, benchmarks, threshold, AsDocumented))
  }

  // ------------------------------------------------------------------------
  // The inverted index
  // ------------------------------------------------------------------------

  type Index = map<int, seq<ItemRef>>

  function Lookup(index: Index, h: int): seq<ItemRef> {
    if h in index then index[h] else []
  }

  /** Which of the two shingle sets an index is over. */
  datatype Signal = Exact | Near

  function ShinglesOf(f: Features, signal: Signal): seq<int> {
    if signal.Exact? then f.exact else f.near
  }

  function ItemShingles(benchmarks: seq<Benchmark>, r: ItemRef, signal: Signal): seq<int> {
    if ValidRef(benchmarks, r) then ShinglesOf(ItemAt(benchmarks, r).features, signal) else []
  }

  /** The shingle vectors are sets. */
  ghost predicate WellBuilt(benchmarks: seq<Benchmark>) {
    forall r, signal :: ValidRef(benchmarks, r) ==> Ascending(ItemShingles(benchmarks, r, signal))
  }

  /** The items before r. */
  ghost predicate Seen(benchmarks: seq<Benchmark>, end: ItemRef, r: ItemRef) {
    ValidRef(benchmarks, r) && RefLess(r, end)
  }

  /** Under the hash, once each, the items before the end that have it. */
  ghost predicate PostsAt(benchmarks: seq<Benchmark>, signal: Signal, refs: seq<ItemRef>, h: int, end: ItemRef) {
    NoRepeats(refs) && forall r :: r in refs <==> Seen(benchmarks, end, r) && h in ItemShingles(benchmarks, r, signal)
  }

  ghost predicate Posts(benchmarks: seq<Benchmark>, signal: Signal, index: Index, end: ItemRef) {
    forall h :: PostsAt(benchmarks, signal, Lookup(index, h), h, end)
  }

  /** Push an item under each of its shingles. */
  method Post(index: Index, hashes: seq<int>, r: ItemRef) returns (index': Index)
    requires Ascending(hashes)
    ensures forall h :: Lookup(index', h) == Lookup(index, h) + if h in hashes then [r] else []
  {
    index' := index;
    for k := 0 to |hashes|
      invariant forall h :: Lookup(index', h) == Lookup(index, h) + if h in hashes[..k] then [r] else []
    {
      assert hashes[k] !in hashes[..k];
      assert hashes[..k + 1] == hashes[..k] + [hashes[k]];
      index' := index'[hashes[k] := Lookup(index', hashes[k]) + [r]];
    }
    assert hashes[..|hashes|] == hashes;
  }

  lemma PostedAt(benchmarks: seq<Benchmark>, signal: Signal, refs: seq<ItemRef>, h: int, r: ItemRef)
    requires ValidRef(benchmarks, r) && PostsAt(benchmarks, signal, refs, h, r)
    ensures PostsAt(benchmarks, signal, refs + if h in ItemShingles(benchmarks, r, signal) then [r] else [], h,
                    (r.0, r.1 + 1))
  {
    hide ItemShingles;
    forall q
      ensures Seen(benchmarks, (r.0, r.1 + 1), q) <==> Seen(benchmarks, r, q) || q == r
    {
    }
  }

  lemma PostedItem(benchmarks: seq<Benchmark>, signal: Signal, index: Index, index': Index, r: ItemRef)
    requires ValidRef(benchmarks, r) && Posts(benchmarks, signal, index, r)
    requires forall h :: Lookup(index', h) == Lookup(index, h) +
                            if h in ItemShingles(benchmarks, r, signal) then [r] else []
    ensures Posts(benchmarks, signal, index', (r.0, r.1 + 1))
  {
    hide PostsAt, Lookup, ItemShingles;
    forall h
      ensures PostsAt(benchmarks, signal, Lookup(index', h), h, (r.0, r.1 + 1))
    {
      assert PostsAt(benchmarks, signal, Lookup(index, h), h, r);
      PostedAt(benchmarks, signal, Lookup(index, h), h, r);
    }
  }

  /** One item into one index. */
  method PostItem(benchmarks: seq<Benchmark>, signal: Signal, index: Index, r: ItemRef) returns (index': Index)
    requires WellBuilt(benchmarks) && ValidRef(benchmarks, r) && Posts(benchmarks, signal, index, r)
    ensures Posts(benchmarks, signal, index', (r.0, r.1 + 1))
  {
    var hashes := ItemShingles(benchmarks, r, signal);
    assert Ascending(hashes);
    index' := Post(index, hashes, r);
    PostedItem(benchmarks, signal, index, index', r);
  }

  /** Both indexes, filled item by item. */
  method BuildIndexes(benchmarks: seq<Benchmark>) returns (exact: Index, near: Index)
    requires WellBuilt(benchmarks)
    ensures Posts(benchmarks, Exact, exact, (|benchmarks|, 0)) && Posts(benchmarks, Near, near, (|benchmarks|, 0))
  {
    exact, near := map[], map[];
    for b := 0 to |benchmarks|
      invariant Posts(benchmarks, Exact, exact, (b, 0)) && Posts(benchmarks, Near, near, (b, 0))
    {
      for i := 0 to |benchmarks[b].items|
        invariant Posts(benchmarks, Exact, exact, (b, i)) && Posts(benchmarks, Near, near, (b, i))
      {
        exact := PostItem(benchmarks, Exact, exact, (b, i));
        near := PostItem(benchmarks, Near, near, (b, i));
      }
    }
  }

  // ------------------------------------------------------------------------
  // Counting shared shingles through the index
  // ------------------------------------------------------------------------

  type Counts = map<ItemRef, nat>

  function CountOf(counts: Counts, r: ItemRef): nat {
    if r in counts then counts[r] else 0
  }

  lemma SharedGrows(hs: seq<int>, k: nat, b: seq<int>)
    requires Ascending(hs) && k < |hs|
    ensures Shared(hs[..k + 1], b) == Shared(hs[..k], b) + if hs[k] in b then 1 else 0
  {
    assert hs[..k + 1] == hs[..k] + [hs[k]];
    assert hs[k] !in hs[..k];
    var before, after := ToSet(hs[..k]) * ToSet(b), ToSet(hs[..k + 1]) * ToSet(b);
    if hs[k] in b {
      assert after == before + {hs[k]};
    } else {
      assert after == before;
    }
  }

  /** Every item on a posting list counts one more. */
  method CountPostings(counts: Counts, refs: seq<ItemRef>) returns (counts': Counts)
    requires NoRepeats(refs)
    ensures forall r :: CountOf(counts', r) == CountOf(counts, r) + if r in refs then 1 else 0
    ensures (forall r :: r in counts ==> counts[r] > 0) ==> forall r :: r in counts' ==> counts'[r] > 0
  {
    counts' := counts;
    for k := 0 to |refs|
      invariant forall r :: CountOf(counts', r) == CountOf(counts, r) + if r in refs[..k] then 1 else 0
      invariant (forall r :: r in counts ==> counts[r] > 0) ==> forall r :: r in counts' ==> counts'[r] > 0
    {
      assert refs[k] !in refs[..k];
      assert refs[..k + 1] == refs[..k] + [refs[k]];
      counts' := counts'[refs[k] := CountOf(counts', refs[k]) + 1];
    }
    assert refs[..|refs|] == refs;
  }

  /** The counts are the intersection sizes, exactly. */
  method CountShared(benchmarks: seq<Benchmark>, signal: Signal, index: Index, hashes: seq<int>)
    returns (counts: Counts)
    requires Posts(benchmarks, signal, index, (|benchmarks|, 0)) && Ascending(hashes)
    ensures forall r :: CountOf(counts, r) == Shared(hashes, ItemShingles(benchmarks, r, signal))
    ensures forall r :: r in counts ==> counts[r] > 0
  {
    counts := map[];
    assert forall r :: ToSet([]) * ToSet(ItemShingles(benchmarks, r, signal)) == {};
    for k := 0 to |hashes|
      invariant forall r :: CountOf(counts, r) == Shared(hashes[..k], ItemShingles(benchmarks, r, signal))
      invariant forall r :: r in counts ==> counts[r] > 0
    {
      var refs := Lookup(index, hashes[k]);
      assert PostsAt(benchmarks, signal, refs, hashes[k], (|benchmarks|, 0));
      var counts' := CountPostings(counts, refs);
      forall r
        ensures CountOf(counts', r) == Shared(hashes[..k + 1], ItemShingles(benchmarks, r, signal))
      {
        SharedGrows(hashes, k, ItemShingles(benchmarks, r, signal));
        assert r in refs <==>
               Seen(benchmarks, (|benchmarks|, 0), r) && hashes[k] in ItemShingles(benchmarks, r, signal);
      }
      counts := counts';
    }
    assert hashes[..|hashes|] == hashes;
  }

  // ------------------------------------------------------------------------
  // One document
  // ------------------------------------------------------------------------

  /** The keys of both maps, in whatever order they iterate, sorted and without repetition. */
  method Candidates(exact: Counts, near: Counts) returns (refs: seq<ItemRef>)
    ensures AscendingRefs(refs) && forall r :: r in refs <==> r in exact || r in near
  {
    var keys, listed := exact.Keys + near.Keys, [];
    while keys != {}
      invariant NoRepeats(listed) && forall r :: r in listed ==> r !in keys
      invariant forall r :: r in exact || r in near <==> r in keys || r in listed
      decreases |keys|
    {
      var r :| r in keys;
      listed := listed + [r];
      keys := keys - {r};
    }
    refs := SortBy(RefLeq, listed);
    SortBySorts(RefLeq, listed);
    SortKeepsNoRepeats(RefLeq, listed);
  }

  /** The loop over the candidates of one document. */
  method JudgeCandidates(benchmarks: seq<Benchmark>, refs: seq<ItemRef>, docId: string, doc: Features, threshold: real,
                         exactShared: Counts, nearShared: Counts) returns (hits: seq<Hit>)
    requires AllValid(benchmarks, refs)
    requires forall r :: CountOf(exactShared, r) == Shared(doc.exact, ItemShingles(benchmarks, r, Exact))
    requires forall r :: CountOf(nearShared, r) == Shared(doc.near, ItemShingles(benchmarks, r, Near))
    ensures hits == HitsAt(benchmarks, refs, docId, doc, threshold, Listed)
  {
    hide HitFor, Shared, Surfaces;
    hits := [];
    for k := 0 to |refs|
      invariant hits + HitsAt(benchmarks, refs[k..], docId, doc, threshold, Listed)
             == HitsAt(benchmarks, refs, docId, doc, threshold, Listed)
    {
      assert refs[k..][1..] == refs[k + 1..];
      var bench := benchmarks[refs[k].0];
      var verdict := HitFor(bench.name, bench.items[refs[k].1], docId, doc, CountOf(exactShared, refs[k]),
                            CountOf(nearShared, refs[k]), threshold);
      assert verdict == Judge(benchmarks, refs[k], docId, doc, threshold);
      hits := if verdict.Some? then hits + [verdict.value] else hits;
    }
    assert refs[|refs|..] == [];
  }

  ghost predicate SurfacingOf(benchmarks: seq<Benchmark>, refs: seq<ItemRef>, doc: Features, surfacing: seq<ItemRef>)
    requires AllValid(benchmarks, refs)
  {
    && AscendingRefs(surfacing)
    && (forall r :: r in surfacing ==> r in refs)
    && forall k :: 0 <= k < |refs| ==> (refs[k] in surfacing <==> Surfaces(benchmarks, refs[k], doc))
  }

  /** Judging the items that surface is judging all items behind the gate. */
  lemma {:induction false} CandidatesSuffice(benchmarks: seq<Benchmark>, refs: seq<ItemRef>, surfacing: seq<ItemRef>,
                                             docId: string, doc: Features, threshold: real)
    requires AllValid(benchmarks, refs) && AllValid(benchmarks, surfacing) && AscendingRefs(refs)
    requires SurfacingOf(benchmarks, refs, doc, surfacing)
    ensures HitsAt(benchmarks, surfacing, docId, doc, threshold, Listed) ==
                HitsAt(benchmarks, refs, docId, doc, threshold, Surfacing)
    decreases |refs|
  {
    hide Surfaces, Judge, Documented;
    assert surfacing != [] ==> surfacing[0] in refs;
    if refs == [] {
    } else if Surfaces(benchmarks, refs[0], doc) {
      HeadSurfaces(benchmarks, refs, doc, surfacing);
      CandidatesSuffice(benchmarks, refs[1..], surfacing[1..], docId, doc, threshold);
    } else {
      forall r | r in surfacing
        ensures r in refs[1..]
      {
        assert r in refs && r != refs[0];
      }
      CandidatesSuffice(benchmarks, refs[1..], surfacing, docId, doc, threshold);
    }
  }

  lemma HeadSurfaces(benchmarks: seq<Benchmark>, refs: seq<ItemRef>, doc: Features, surfacing: seq<ItemRef>)
    requires AllValid(benchmarks, refs) && AscendingRefs(refs) && SurfacingOf(benchmarks, refs, doc, surfacing)
    requires refs != [] && Surfaces(benchmarks, refs[0], doc)
    ensures surfacing != [] && surfacing[0] == refs[0] && SurfacingOf(benchmarks, refs[1..], doc, surfacing[1..])
  {
    assert refs[0] in surfacing;
    var i :| 0 <= i < |surfacing| && surfacing[i] == refs[0];
    assert surfacing[0] in refs;
    var j :| 0 <= j < |refs| && refs[j] == surfacing[0];
    assert i == 0 && j == 0;
    forall r | r in surfacing[1..]
      ensures r in refs[1..]
    {
      assert r in surfacing && r in refs && r != refs[0];
    }
    forall k | 0 <= k < |refs[1..]|
      ensures refs[1..][k] in surfacing[1..] <==> Surfaces(benchmarks, refs[1..][k], doc)
    {
      assert refs[k + 1] in surfacing <==> Surfaces(benchmarks, refs[k + 1], doc);
      assert refs[k + 1] != refs[0];
    }
  }

  /** One document against the indexes: the hits with every item that surfaces. */
  method ScanDoc(benchmarks: seq<Benchmark>, exactIndex: Index, nearIndex: Index, docId: string, doc: Features,
                 threshold: real) returns (hits: seq<Hit>)
    requires Posts(benchmarks, Exact, exactIndex, (|benchmarks|, 0))
    requires Posts(benchmarks, Near, nearIndex, (|benchmarks|, 0))
    requires Ascending(doc.exact) && Ascending(doc.near)
    requires AllValid(benchmarks, RefsFrom(benchmarks, 0))
    ensures hits == HitsAt(benchmarks, RefsFrom(benchmarks, 0), docId, doc, threshold, Surfacing)
  {
    var exactShared := CountShared(benchmarks, Exact, exactIndex, doc.exact);
    var nearShared := CountShared(benchmarks, Near, nearIndex, doc.near);
    var refs := Candidates(exactShared, nearShared);
    CandidatesSurface(benchmarks, exactShared, nearShared, doc, refs);
    hits := JudgeCandidates(benchmarks, refs, docId, doc, threshold, exactShared, nearShared);
    CandidatesSuffice(benchmarks, RefsFrom(benchmarks, 0), refs, docId, doc, threshold);
  }

  lemma CandidatesSurface(benchmarks: seq<Benchmark>, exactShared: Counts, nearShared: Counts, doc: Features,
                          refs: seq<ItemRef>)
    requires AscendingRefs(refs) && forall r :: r in refs <==> r in exactShared || r in nearShared
    requires forall r :: CountOf(exactShared, r) == Shared(doc.exact, ItemShingles(benchmarks, r, Exact))
    requires forall r :: CountOf(nearShared, r) == Shared(doc.near, ItemShingles(benchmarks, r, Near))
    requires (forall r :: r in exactShared ==> exactShared[r] > 0) && forall r :: r in nearShared ==> nearShared[r] > 0
    ensures AllValid(benchmarks, RefsFrom(benchmarks, 0)) && AscendingRefs(RefsFrom(benchmarks, 0))
    ensures AllValid(benchmarks, refs) && SurfacingOf(benchmarks, RefsFrom(benchmarks, 0), doc, refs)
  {
    RefsFromSpec(benchmarks, 0);
    assert ToSet(doc.exact) * ToSet([]) == {} && ToSet(doc.near) * ToSet([]) == {};
    var all := RefsFrom(benchmarks, 0);
    forall k | 0 <= k < |all|
      ensures ValidRef(benchmarks, all[k]) && (all[k] in refs <==> Surfaces(benchmarks, all[k], doc))
    {
      assert all[k] in all;
      assert all[k] in exactShared <==> CountOf(exactShared, all[k]) > 0;
      assert all[k] in nearShared <==> CountOf(nearShared, all[k]) > 0;
    }
    forall k | 0 <= k < |refs|
      ensures ValidRef(benchmarks, refs[k])
    {
      var r := refs[k];
      assert r in refs;
      assert CountOf(exactShared, r) == Shared(doc.exact, ItemShingles(benchmarks, r, Exact));
      assert CountOf(nearShared, r) == Shared(doc.near, ItemShingles(benchmarks, r, Near));
    }
  }

  // ------------------------------------------------------------------------
  // scan
  // ------------------------------------------------------------------------

  function WordCount(d: Doc): nat {
    |WordsOf(d.text)|
  }

  /** `scan`, on normalized texts. */
  method Scan(H: Hasher, kernel: Bytes -> MinHash, docs: seq<Doc>, benchmarks: seq<Benchmark>, threshold: real)
    returns (hits: seq<Hit>, stats: CorpusStats)
    requires WellBuilt(benchmarks)
    ensures hits == IndexedReport(H, kernel, docs, benchmarks, threshold)
    ensures hits == BruteForce(H, kernel, docs, benchmarks, threshold) <==>
                EveryPairAgrees(H, kernel, docs, benchmarks, threshold)
    ensures stats == CorpusStats(|docs|, SumOf(WordCount, docs))
  {
    hide BruteForce, EveryPairAgrees, Posts, WellBuilt, RefsFrom, HitsAt, ShingleSet, WordsOf;
    var exactIndex, nearIndex := BuildIndexes(benchmarks);
    hits := [];
    var words := 0;
    for i := 0 to |docs|
      invariant hits == AllHits(H, kernel, docs[..i], benchmarks, threshold, Surfacing)
      invariant words + SumOf(WordCount, docs[i..]) == SumOf(WordCount, docs)
    {
      var exact := ShingleHashes(H, docs[i].text, EXACT_N);
      var near := ShingleHashes(H, docs[i].text, NEAR_N);
      ShingleSetSpec(H, docs[i].text, EXACT_N);
      ShingleSetSpec(H, docs[i].text, NEAR_N);
      RefsFromSpec(benchmarks, 0);
      var found := ScanDoc(benchmarks, exactIndex, nearIndex, docs[i].id, Features(exact, near, kernel(docs[i].text)),
                           threshold);
      hits := hits + found;
      words := words + |WordsOf(docs[i].text)|;
      assert docs[..i + 1][..i] == docs[..i] && docs[i..][1..] == docs[i + 1..];
    }
    assert docs[..|docs|] == docs && docs[|docs|..] == [];
    ScanIsBruteForce(H, kernel, docs, benchmarks, threshold);
    hits := SortBy(HitLeq, hits);
    stats := CorpusStats(|docs|, words);
  }

  // ------------------------------------------------------------------------
  // When the indexes make no difference
  // ------------------------------------------------------------------------

  /** With a 5-gram in common the code judges a pair as documented; with a 13-gram only, if the
      estimate is the zero the code puts for it; with neither, if the estimate does not fire. */
  ghost predicate PairAgrees(doc: Features, item: Features, threshold: real) {
    || Shared(doc.near, item.near) > 0
    || if Shared(doc.exact, item.exact) > 0 then Estimate(doc, item) == 0.0 else Estimate(doc, item) < threshold
  }

  /** A hit weighs more with an estimate: what the code leaves out of a report shows in its weight. */
  function Weight(h: Hit): nat {
    if h.jaccard > 0.0 then 2 else 1
  }

  function WeightOf(verdict: Option<Hit>): nat {
    if verdict.Some? then Weight(verdict.value) else 0
  }

  lemma PairWeights(benchmarks: seq<Benchmark>, r: ItemRef, docId: string, doc: Features, threshold: real)
    requires ValidRef(benchmarks, r)
    ensures var code, all := VerdictIn(Surfacing, benchmarks, r, docId, doc, threshold),
                             VerdictIn(AsDocumented, benchmarks, r, docId, doc, threshold);
            && (PairAgrees(doc, ItemAt(benchmarks, r).features, threshold) ==> code == all)
            && (!PairAgrees(doc, ItemAt(benchmarks, r).features, threshold) ==> WeightOf(code) < WeightOf(all))
  {
    hide Shared, DedupSpec.JaccardEstimate;
    NothingContained(|ItemAt(benchmarks, r).features.near|);
  }

  lemma NothingContained(size: nat)
    ensures Containment(0, size) == 0.0
  {
  }

  ghost predicate AllAgree(benchmarks: seq<Benchmark>, refs: seq<ItemRef>, doc: Features, threshold: real)
    requires AllValid(benchmarks, refs)
  {
    forall k :: 0 <= k < |refs| ==> PairAgrees(doc, ItemAt(benchmarks, refs[k]).features, threshold)
  }

  lemma AgreeFirst(benchmarks: seq<Benchmark>, refs: seq<ItemRef>, doc: Features, threshold: real)
    requires AllValid(benchmarks, refs) && refs != []
    ensures AllAgree(benchmarks, refs, doc, threshold) <==>
              && PairAgrees(doc, ItemAt(benchmarks, refs[0]).features, threshold)
              && AllAgree(benchmarks, refs[1..], doc, threshold)
  {
    hide PairAgrees;
    if PairAgrees(doc, ItemAt(benchmarks, refs[0]).features, threshold) &&
       AllAgree(benchmarks, refs[1..], doc, threshold) {
      forall k | 0 <= k < |refs|
        ensures PairAgrees(doc, ItemAt(benchmarks, refs[k]).features, threshold)
      {
        assert k > 0 ==> refs[k] == refs[1..][k - 1];
      }
    }
    if AllAgree(benchmarks, refs, doc, threshold) {
      forall k | 0 <= k < |refs[1..]|
        ensures PairAgrees(doc, ItemAt(benchmarks, refs[1..][k]).features, threshold)
      {
        assert refs[1..][k] == refs[k + 1];
      }
    }
  }

  lemma {:induction false} WeighItems(benchmarks: seq<Benchmark>, refs: seq<ItemRef>, docId: string, doc: Features,
                                      threshold: real)
    requires AllValid(benchmarks, refs)
    ensures var code, all := HitsAt(benchmarks, refs, docId, doc, threshold, Surfacing),
                             HitsAt(benchmarks, refs, docId, doc, threshold, AsDocumented);
            && (AllAgree(benchmarks, refs, doc, threshold) ==> code == all)
            && (!AllAgree(benchmarks, refs, doc, threshold) ==> SumOf(Weight, code) < SumOf(Weight, all))
  {
    hide PairAgrees, VerdictIn, AllAgree, SumOf, Weight;
    if refs == [] {
      NothingToAgree(benchmarks, doc, threshold);
    } else {
      PairWeights(benchmarks, refs[0], docId, doc, threshold);
      AgreeFirst(benchmarks, refs, doc, threshold);
      WeighItems(benchmarks, refs[1..], docId, doc, threshold);
      WeighOneMore(VerdictIn(Surfacing, benchmarks, refs[0], docId, doc, threshold),
                   HitsAt(benchmarks, refs[1..], docId, doc, threshold, Surfacing));
      WeighOneMore(VerdictIn(AsDocumented, benchmarks, refs[0], docId, doc, threshold),
                   HitsAt(benchmarks, refs[1..], docId, doc, threshold, AsDocumented));
    }
  }

  lemma NothingToAgree(benchmarks: seq<Benchmark>, doc: Features, threshold: real)
    ensures AllAgree(benchmarks, [], doc, threshold)
  {
  }

  lemma WeighOneMore(verdict: Option<Hit>, rest: seq<Hit>)
    ensures SumOf(Weight, if verdict.Some? then [verdict.value] + rest else rest) ==
                WeightOf(verdict) + SumOf(Weight, rest)
  {
    if verdict.Some? {
      assert ([verdict.value] + rest)[1..] == rest;
    }
  }

  ghost predicate DocAgrees(benchmarks: seq<Benchmark>, doc: Features, threshold: real) {
    forall r :: ValidRef(benchmarks, r) ==> PairAgrees(doc, ItemAt(benchmarks, r).features, threshold)
  }

  /** The code judges every pair as documented. */
  ghost predicate EveryPairAgrees(H: Hasher, kernel: Bytes -> MinHash, docs: seq<Doc>, benchmarks: seq<Benchmark>,
                                  threshold: real) {
    forall d :: d in docs ==> DocAgrees(benchmarks, FeaturesOf(H, kernel, d.text), threshold)
  }

  lemma AllItemsAgree(benchmarks: seq<Benchmark>, doc: Features, threshold: real)
    ensures AllValid(benchmarks, RefsFrom(benchmarks, 0))
    ensures AllAgree(benchmarks, RefsFrom(benchmarks, 0), doc, threshold) <==> DocAgrees(benchmarks, doc, threshold)
  {
    hide PairAgrees;
    RefsFromSpec(benchmarks, 0);
    var all := RefsFrom(benchmarks, 0);
    forall k | 0 <= k < |all|
      ensures ValidRef(benchmarks, all[k])
    {
      assert all[k] in all;
    }
    if AllAgree(benchmarks, all, doc, threshold) {
      forall r | ValidRef(benchmarks, r)
        ensures PairAgrees(doc, ItemAt(benchmarks, r).features, threshold)
      {
        assert r in all;
        var k :| 0 <= k < |all| && all[k] == r;
      }
    }
  }

  lemma {:induction false} WeighDocs(H: Hasher, kernel: Bytes -> MinHash, docs: seq<Doc>, benchmarks: seq<Benchmark>,
                                     threshold: real)
    ensures var code, all := AllHits(H, kernel, docs, benchmarks, threshold, Surfacing),
                             AllHits(H, kernel, docs, benchmarks, threshold, AsDocumented);
            && (EveryPairAgrees(H, kernel, docs, benchmarks, threshold) ==> code == all)
            && (!EveryPairAgrees(H, kernel, docs, benchmarks, threshold) ==> SumOf(Weight, code) < SumOf(Weight, all))
  {
    hide FeaturesOf, DocAgrees, HitsAt, RefsFrom, SumOf, Weight;
    if docs != [] {
      var init, last := docs[..|docs| - 1], docs[|docs| - 1];
      var doc, refs := FeaturesOf(H, kernel, last.text), RefsFrom(benchmarks, 0);
      WeighDocs(H, kernel, init, benchmarks, threshold);
      AllItemsAgree(benchmarks, doc, threshold);
      WeighItems(benchmarks, refs, last.id, doc, threshold);
      SumOfAppend(Weight, AllHits(H, kernel, init, benchmarks, threshold, Surfacing),
                  HitsAt(benchmarks, refs, last.id, doc, threshold, Surfacing));
      SumOfAppend(Weight, AllHits(H, kernel, init, benchmarks, threshold, AsDocumented),
                  HitsAt(benchmarks, refs, last.id, doc, threshold, AsDocumented));
      assert forall d :: d in docs <==> d in init || d == last;
    }
  }

  /** The indexed scan reports what brute force would exactly when it judges every pair as
      documented. */
  lemma ScanIsBruteForce(H: Hasher, kernel: Bytes -> MinHash, docs: seq<Doc>, benchmarks: seq<Benchmark>,
                         threshold: real)
    ensures IndexedReport(H, kernel, docs, benchmarks, threshold) == BruteForce(H, kernel, docs, benchmarks, threshold)
       <==> EveryPairAgrees(H, kernel, docs, benchmarks, threshold)
  {
    hide EveryPairAgrees, AllHits, SortBy, HitLeq, Weight;
    WeighDocs(H, kernel, docs, benchmarks, threshold);
    var code, all := AllHits(H, kernel, docs, benchmarks, threshold, Surfacing),
                     AllHits(H, kernel, docs, benchmarks, threshold, AsDocumented);
    SortByPermutes(HitLeq, code);
    SortByPermutes(HitLeq, all);
    SumOfPermutation(Weight, code, SortBy(HitLeq, code));
    SumOfPermutation(Weight, all, SortBy(HitLeq, all));
  }

  // ------------------------------------------------------------------------
  // Which pairs of texts the scan misses
  // ------------------------------------------------------------------------

  function Kernel(H: Hasher, K: KeyedHasher): Bytes -> MinHash {
    text => Compute(H, K, text)
  }

  function TextFeatures(H: Hasher, K: KeyedHasher, text: Bytes): Features {
    FeaturesOf(H, Kernel(H, K), text)
  }

  /** The code does not judge a document and an item with these texts as documented. */
  ghost predicate Missed(H: Hasher, K: KeyedHasher, doc: Bytes, item: Bytes, threshold: real) {
    !PairAgrees(TextFeatures(H, K, doc), TextFeatures(H, K, item), threshold)
  }

  predicate Short(text: Bytes) {
    |WordsOf(text)| < NEAR_N
  }

  /** The same one to four words. */
  predicate SameShortText(a: Bytes, b: Bytes) {
    1 <= |WordsOf(a)| < NEAR_N && WordsOf(a) == WordsOf(b)
  }

  /** One text is empty, and a component of the other is what components of the empty text are. */
  predicate EmptyAgainstMax(H: Hasher, K: KeyedHasher, a: Bytes, b: Bytes) {
    && (WordsOf(a) == [] <==> WordsOf(b) != [])
    && MAX in Compute(H, K, if WordsOf(a) == [] then b else a)
  }

  /** Text of fewer than five words shares no shingle with anything. */
  lemma ShortSharesNothing(H: Hasher, K: KeyedHasher, a: Bytes, b: Bytes)
    requires Short(a) || Short(b)
    ensures Shared(TextFeatures(H, K, a).near, TextFeatures(H, K, b).near) == 0
    ensures Shared(TextFeatures(H, K, a).exact, TextFeatures(H, K, b).exact) == 0
  {
    hide ShingleSet, WordsOf;
    forall text | text in {a, b} && Short(text)
      ensures ShingleSet(H, text, NEAR_N) == [] && ShingleSet(H, text, EXACT_N) == []
    {
      ShingleSetSpec(H, text, NEAR_N);
      ShingleSetSpec(H, text, EXACT_N);
    }
    SharedMeansCommon(TextFeatures(H, K, a).near, TextFeatures(H, K, b).near);
    SharedMeansCommon(TextFeatures(H, K, a).exact, TextFeatures(H, K, b).exact);
  }

  /** A component in common, but no 5-gram: the same short text, or a collision, or emptiness. */
  lemma WhyNothingShared(H: Hasher, K: KeyedHasher, a: Bytes, b: Bytes)
    requires Shared(TextFeatures(H, K, a).near, TextFeatures(H, K, b).near) == 0
    requires Estimate(TextFeatures(H, K, a), TextFeatures(H, K, b)) > 0.0
    ensures SameShortText(a, b) || ComponentCollision(H, K, a, b) || EmptyAgainstMax(H, K, a, b)
    ensures !Short(a) && !Short(b) ==> ComponentCollision(H, K, a, b)
  {
    hide Compute, ShingleSet, WordsOf, ComponentCollision, Shared;
    var i := SomeMatch(Compute(H, K, a), Compute(H, K, b));
    if WordsOf(a) == [] {
      NoWordsMax(H, K, a);
    }
    if WordsOf(b) == [] {
      NoWordsMax(H, K, b);
    }
    if WordsOf(a) != [] && WordsOf(b) != [] && !ComponentCollision(H, K, a, b) {
      EqualComponentsMean(H, K, a, b, i);
      SharedMeansCommon(TextFeatures(H, K, a).near, TextFeatures(H, K, b).near);
    }
  }

  /** For a positive threshold a pair with a short text is missed exactly when its estimate
      fires; any other pair only on a collision. The same one to four words are missed at every
      threshold up to one. */
  lemma MissedExactly(H: Hasher, K: KeyedHasher, a: Bytes, b: Bytes, threshold: real)
    requires threshold > 0.0
    ensures Short(a) || Short(b) ==>
              (Missed(H, K, a, b, threshold) <==> Estimate(TextFeatures(H, K, a), TextFeatures(H, K, b)) >= threshold)
    ensures !Short(a) && !Short(b) && Missed(H, K, a, b, threshold) ==> ComponentCollision(H, K, a, b)
    ensures Missed(H, K, a, b, threshold) ==>
              SameShortText(a, b) || ComponentCollision(H, K, a, b) || EmptyAgainstMax(H, K, a, b)
    ensures SameShortText(a, b) ==>
              (Missed(H, K, a, b, threshold) <==> threshold <= 1.0 && !DedupSpec.AllMax(Compute(H, K, a)))
  {
    hide Compute, Shared, WordsOf, ComponentCollision, EmptyAgainstMax, ShingleSet, DedupSpec.AllMax;
    if Short(a) || Short(b) {
      ShortSharesNothing(H, K, a, b);
    }
    if Missed(H, K, a, b, threshold) {
      WhyNothingShared(H, K, a, b);
    }
    if SameShortText(a, b) {
      SameWordsSameSignature(H, K, a, b);
      EstimateOfSame(Compute(H, K, a));
    }
  }

  lemma EstimateOfSame(m: MinHash)
    ensures DedupSpec.JaccardEstimate(m, m) == if DedupSpec.AllMax(m) then 0.0 else 1.0
  {
    MatchesAll(m, m);
  }

  // ------------------------------------------------------------------------
  // The scan over texts
  // ------------------------------------------------------------------------

  datatype TextItem = TextItem(id: string, text: Bytes)

  datatype TextBenchmark = TextBenchmark(name: string, items: seq<TextItem>)

  /** `BenchItem::new` for every item. */
  function Preprocess(H: Hasher, K: KeyedHasher, texts: seq<TextBenchmark>): (benchmarks: seq<Benchmark>)
    ensures |benchmarks| == |texts|
    ensures forall b :: 0 <= b < |texts| ==>
              benchmarks[b].name == texts[b].name && |benchmarks[b].items| == |texts[b].items|
    ensures forall b, i :: 0 <= b < |texts| && 0 <= i < |texts[b].items| ==>
              benchmarks[b].items[i].id == texts[b].items[i].id
    ensures forall b, i :: 0 <= b < |texts| && 0 <= i < |texts[b].items| ==>
              benchmarks[b].items[i].features == TextFeatures(H, K, texts[b].items[i].text)
  {
    seq(|texts|, b requires 0 <= b < |texts| => PreprocessOne(H, K, texts[b]))
  }

  function PreprocessOne(H: Hasher, K: KeyedHasher, bench: TextBenchmark): (r: Benchmark)
    ensures r.name == bench.name && |r.items| == |bench.items|
    ensures forall i :: 0 <= i < |bench.items| ==> r.items[i].id == bench.items[i].id
    ensures forall i :: 0 <= i < |bench.items| ==> r.items[i].features == TextFeatures(H, K, bench.items[i].text)
  {
    Benchmark(bench.name, seq(|bench.items|, i requires 0 <= i < |bench.items| =>
      BenchItem(bench.items[i].id, TextFeatures(H, K, bench.items[i].text))))
  }

  ghost predicate ItemText(texts: seq<TextBenchmark>, text: Bytes) {
    exists b, i :: 0 <= b < |texts| && 0 <= i < |texts[b].items| && texts[b].items[i].text == text
  }

  /** The scan gives the report its documentation describes exactly when no document is missed
      with an item. */
  lemma ScanMeetsDocumentation(H: Hasher, K: KeyedHasher, docs: seq<Doc>, texts: seq<TextBenchmark>, threshold: real)
    ensures var kernel, benchmarks := Kernel(H, K), Preprocess(H, K, texts);
            && WellBuilt(benchmarks)
            && (IndexedReport(H, kernel, docs, benchmarks, threshold) ==
                BruteForce(H, kernel, docs, benchmarks, threshold)
                <==> forall d, text :: d in docs && ItemText(texts, text) ==> !Missed(H, K, d.text, text, threshold))
  {
    hide PairAgrees, FeaturesOf, IndexedReport, BruteForce, PreprocessOne;
    var kernel, benchmarks := Kernel(H, K), Preprocess(H, K, texts);
    PreprocessedIsWellBuilt(H, K, texts);
    ScanIsBruteForce(H, kernel, docs, benchmarks, threshold);
    forall d | d in docs
      ensures DocAgrees(benchmarks, FeaturesOf(H, kernel, d.text), threshold)
         <==> forall text :: ItemText(texts, text) ==> !Missed(H, K, d.text, text, threshold)
    {
      DocAgreesOnTexts(H, K, d, texts, threshold);
    }
  }

  lemma DocAgreesOnTexts(H: Hasher, K: KeyedHasher, d: Doc, texts: seq<TextBenchmark>, threshold: real)
    ensures DocAgrees(Preprocess(H, K, texts), TextFeatures(H, K, d.text), threshold)
       <==> forall text :: ItemText(texts, text) ==> !Missed(H, K, d.text, text, threshold)
  {
    hide PairAgrees, FeaturesOf, PreprocessOne, Preprocess;
    var benchmarks, doc := Preprocess(H, K, texts), TextFeatures(H, K, d.text);
    if forall text :: ItemText(texts, text) ==> !Missed(H, K, d.text, text, threshold) {
      forall r: ItemRef | ValidRef(benchmarks, r)
        ensures PairAgrees(doc, ItemAt(benchmarks, r).features, threshold)
      {
        assert ItemText(texts, texts[r.0].items[r.1].text);
      }
    }
    if DocAgrees(benchmarks, doc, threshold) {
      forall text | ItemText(texts, text)
        ensures !Missed(H, K, d.text, text, threshold)
      {
        var b: nat, i: nat :| b < |texts| && i < |texts[b].items| && texts[b].items[i].text == text;
        assert ValidRef(benchmarks, (b, i)) && ItemAt(benchmarks, (b, i)).features == TextFeatures(H, K, text);
      }
    }
  }

  lemma PreprocessedIsWellBuilt(H: Hasher, K: KeyedHasher, texts: seq<TextBenchmark>)
    ensures WellBuilt(Preprocess(H, K, texts))
  {
    hide ShingleSet, Preprocess, PreprocessOne;
    var benchmarks := Preprocess(H, K, texts);
    forall r: ItemRef, signal | ValidRef(benchmarks, r)
      ensures Ascending(ItemShingles(benchmarks, r, signal))
    {
      FeaturesAreSets(H, Kernel(H, K), texts[r.0].items[r.1].text);
    }
  }

  // ------------------------------------------------------------------------
  // Instances
  // ------------------------------------------------------------------------

  lemma {:induction false} NothingSurfaces(benchmarks: seq<Benchmark>, refs: seq<ItemRef>, docId: string,
                                           doc: Features, threshold: real)
    requires AllValid(benchmarks, refs) && forall k :: 0 <= k < |refs| ==> !Surfaces(benchmarks, refs[k], doc)
    ensures HitsAt(benchmarks, refs, docId, doc, threshold, Surfacing) == []
  {
    hide Surfaces, Judge, Documented;
    if refs != [] {
      NothingSurfaces(benchmarks, refs[1..], docId, doc, threshold);
    }
  }

  /** A short document is missed with every item its estimate fires for: the scan of it reports
      nothing, brute force something. */
  lemma ShortDocumentMissed(H: Hasher, K: KeyedHasher, text: Bytes, item: Bytes, threshold: real)
    requires Short(text) && Estimate(TextFeatures(H, K, text), TextFeatures(H, K, item)) >= threshold
    ensures var docs, benchmarks := [Doc("d", text)], Preprocess(H, K, [TextBenchmark("b", [TextItem("i", item)])]);
            && IndexedReport(H, Kernel(H, K), docs, benchmarks, threshold) == []
            && BruteForce(H, Kernel(H, K), docs, benchmarks, threshold) != []
  {
    hide FeaturesOf, HitsAt, RefsFrom, BruteForce, IndexedReport, Preprocess, Estimate, Shared, Short, SortBy, HitLeq;
    var texts := [TextBenchmark("b", [TextItem("i", item)])];
    var docs, benchmarks, doc := [Doc("d", text)], Preprocess(H, K, texts), TextFeatures(H, K, text);
    ShortSharesNothing(H, K, text, item);
    AllItemsAgree(benchmarks, doc, threshold);
    forall r: ItemRef | ValidRef(benchmarks, r)
      ensures !Surfaces(benchmarks, r, doc)
    {
      assert r == (0, 0);
    }
    RefsFromSpec(benchmarks, 0);
    forall k | 0 <= k < |RefsFrom(benchmarks, 0)|
      ensures !Surfaces(benchmarks, RefsFrom(benchmarks, 0)[k], doc)
    {
      assert RefsFrom(benchmarks, 0)[k] in RefsFrom(benchmarks, 0);
    }
    NothingSurfaces(benchmarks, RefsFrom(benchmarks, 0), "d", doc, threshold);
    NothingReported(H, Kernel(H, K), docs[0], benchmarks, threshold);
    assert ItemText(texts, texts[0].items[0].text) && docs[0] in docs;
    assert Missed(H, K, text, item, threshold);
    ScanMeetsDocumentation(H, K, docs, texts, threshold);
  }

  lemma NothingReported(H: Hasher, kernel: Bytes -> MinHash, d: Doc, benchmarks: seq<Benchmark>, threshold: real)
    requires AllValid(benchmarks, RefsFrom(benchmarks, 0))
    requires HitsAt(benchmarks, RefsFrom(benchmarks, 0), d.id, FeaturesOf(H, kernel, d.text), threshold, Surfacing)
             == []
    ensures IndexedReport(H, kernel, [d], benchmarks, threshold) == []
  {
    hide HitsAt, FeaturesOf, RefsFrom;
    assert [d][..0] == [] && AllHits(H, kernel, [], benchmarks, threshold, Surfacing) == [];
    assert [d][|[d]| - 1] == d;
    assert AllHits(H, kernel, [d], benchmarks, threshold, Surfacing) == [];
  }

  /** "hello" and "world". */
  const HELLO_WORLD: seq<Bytes> := [[0x68, 0x65, 0x6C, 0x6C, 0x6F], [0x77, 0x6F, 0x72, 0x6C, 0x64]]

  /** "hello world" against itself: at every positive threshold up to one, the default 0.80
      included, it is a hit as documented, unless all its components are the empty text's, and
      the scan does not report it. */
  lemma HelloWorldMissed(H: Hasher, K: KeyedHasher, threshold: real)
    requires 0.0 < threshold <= 1.0 && !DedupSpec.AllMax(Compute(H, K, JoinSpace(HELLO_WORLD)))
    ensures var text := JoinSpace(HELLO_WORLD);
            var docs, benchmarks := [Doc("d", text)], Preprocess(H, K, [TextBenchmark("b", [TextItem("i", text)])]);
            && IndexedReport(H, Kernel(H, K), docs, benchmarks, threshold) == []
            && BruteForce(H, Kernel(H, K), docs, benchmarks, threshold) != []
  {
    hide Compute, WordsOf, ShingleSet, Shared, JoinSpace, IndexedReport, BruteForce, DedupSpec.AllMax;
    var text := JoinSpace(HELLO_WORLD);
    WordsOfJoinSpace(HELLO_WORLD);
    EstimateOfSame(Compute(H, K, text));
    ShortDocumentMissed(H, K, text, text, threshold);
  }

  /** An empty document against any item, at a threshold of zero or less. */
  lemma EmptyDocumentIsMissed(H: Hasher, K: KeyedHasher, item: Bytes, threshold: real)
    requires threshold <= 0.0
    ensures var docs, benchmarks := [Doc("d", [])], Preprocess(H, K, [TextBenchmark("b", [TextItem("i", item)])]);
            && IndexedReport(H, Kernel(H, K), docs, benchmarks, threshold) == []
            && BruteForce(H, Kernel(H, K), docs, benchmarks, threshold) != []
  {
    hide Compute, ShingleSet, Shared, IndexedReport, BruteForce;
    assert WordsOf([]) == [];
    ShortDocumentMissed(H, K, [], item, threshold);
  }

  // ------------------------------------------------------------------------
  // What a verdict says
  // ------------------------------------------------------------------------

  ghost predicate HaveCommon(a: seq<int>, b: seq<int>) {
    exists h :: h in a && h in b
  }

  lemma SharedMeansCommon(a: seq<int>, b: seq<int>)
    ensures Shared(a, b) > 0 <==> HaveCommon(a, b)
  {
    if Shared(a, b) > 0 {
      assert ToSet(a) * ToSet(b) != {};
      var h := SomeMember(ToSet(a) * ToSet(b));
      assert h in a && h in b;
    } else {
      assert forall h :: h in a && h in b ==> h in ToSet(a) * ToSet(b);
    }
  }

  /** A pair is flagged when it has a 13-gram in common, or has a 5-gram in common and an
      estimate at the threshold, or at least nine tenths of the item's 5-grams in common; the
      hit says which, and with what counts. */
  lemma VerdictMeans(benchmarks: seq<Benchmark>, r: ItemRef, docId: string, doc: Features, threshold: real)
    requires ValidRef(benchmarks, r) && threshold > 0.0
    ensures var item, verdict := ItemAt(benchmarks, r), Judge(benchmarks, r, docId, doc, threshold);
            var exact := HaveCommon(doc.exact, item.features.exact);
            var near := HaveCommon(doc.near, item.features.near)
                        && DedupSpec.JaccardEstimate(doc.signature, item.features.signature) >= threshold;
            var contained := item.features.near != []
                             && 10 * Shared(doc.near, item.features.near) >= 9 * |item.features.near|;
            && (verdict.Some? <==> exact || near || contained)
            && (verdict.Some? ==>
                 var h := verdict.value;
                 && (h.exact <==> exact) && (h.near <==> near) && (h.contained <==> contained)
                 && (h.benchmark, h.itemId, h.docId) == (benchmarks[r.0].name, item.id, docId)
                 && h.sharedExact == Shared(doc.exact, item.features.exact)
                 && h.jaccard == (if HaveCommon(doc.near, item.features.near)
                                  then DedupSpec.JaccardEstimate(doc.signature, item.features.signature) else 0.0)
                 && (item.features.near == [] ==> h.containment == 0.0)
                 && (item.features.near != [] ==>
                      h.containment == Shared(doc.near, item.features.near) as real / |item.features.near| as real))
  {
    hide Shared, HaveCommon, DedupSpec.JaccardEstimate;
    var item := ItemAt(benchmarks, r);
    SharedMeansCommon(doc.exact, item.features.exact);
    SharedMeansCommon(doc.near, item.features.near);
    ContainmentMeans(doc.near, item.features.near);
  }

  /** The documented check flags a pair when any of its three signals fires. */
  lemma DocumentedMeans(benchmarks: seq<Benchmark>, r: ItemRef, docId: string, doc: Features, threshold: real)
    requires ValidRef(benchmarks, r)
    ensures var item := ItemAt(benchmarks, r).features;
            Documented(benchmarks, r, docId, doc, threshold).Some? <==>
              || HaveCommon(doc.exact, item.exact)
              || DedupSpec.JaccardEstimate(doc.signature, item.signature) >= threshold
              || (item.near != [] && 10 * Shared(doc.near, item.near) >= 9 * |item.near|)
  {
    hide Shared, HaveCommon, DedupSpec.JaccardEstimate;
    var item := ItemAt(benchmarks, r).features;
    SharedMeansCommon(doc.exact, item.exact);
    ContainmentMeans(doc.near, item.near);
  }

  lemma ContainmentMeans(a: seq<int>, b: seq<int>)
    ensures Containment(Shared(a, b), |b|) >= CONTAINMENT_THRESHOLD <==> b != [] && 10 * Shared(a, b) >= 9 * |b|
  {
    if b != [] {
      Quotient(Shared(a, b) as real, |b| as real);
    }
  }

  lemma Quotient(x: real, y: real)
    requires y > 0.0
    ensures x / y >= 0.9 <==> x * 10.0 >= y * 9.0
  {
    if x / y >= 0.9 {
      assert x / y * y >= 0.9 * y;
    } else {
      assert x / y * y < 0.9 * y;
    }
  }

  /** An item all of whose 5-grams occur in the document is fully contained, and flagged. */
  lemma WholeItemIsContained(benchmarks: seq<Benchmark>, r: ItemRef, docId: string, doc: Features, threshold: real)
    requires ValidRef(benchmarks, r) && threshold > 0.0 && Ascending(ItemAt(benchmarks, r).features.near)
    requires var near := ItemAt(benchmarks, r).features.near; near != [] && forall h :: h in near ==> h in doc.near
    ensures var verdict := Judge(benchmarks, r, docId, doc, threshold);
            verdict.Some? && verdict.value.contained && verdict.value.containment == 1.0
  {
    hide Judge, Shared;
    var near := ItemAt(benchmarks, r).features.near;
    AllShared(doc.near, near);
    VerdictMeans(benchmarks, r, docId, doc, threshold);
    WholeQuotient(|near|);
  }

  lemma WholeQuotient(n: nat)
    requires n > 0
    ensures n as real / n as real == 1.0
  {
  }

  lemma AllShared(a: seq<int>, b: seq<int>)
    requires Ascending(b) && forall h :: h in b ==> h in a
    ensures Shared(a, b) == |b|
  {
    SetOfAscending(b);
    assert ToSet(a) * ToSet(b) == ToSet(b);
  }

  lemma {:induction false} SetOfAscending(s: seq<int>)
    requires Ascending(s)
    ensures |ToSet(s)| == |s|
  {
    if s == [] {
      assert ToSet(s) == {};
    } else {
      SetOfAscending(s[1..]);
      assert s == [s[0]] + s[1..];
      assert ToSet(s) == {s[0]} + ToSet(s[1..]);
    }
  }

  // ------------------------------------------------------------------------
  // What the report holds
  // ------------------------------------------------------------------------

  lemma HitOrder()
    ensures TotalPreorder(HitLeq)
  {
    forall a, b, c
      ensures HitLeq(a, b) || HitLeq(b, a)
      ensures HitLeq(a, b) && HitLeq(b, c) ==> HitLeq(a, c)
    {
      HitLeqIsTotal(a, b);
      HitLeqIsTransitive(a, b, c);
    }
  }

  lemma HitLeqIsTotal(a: Hit, b: Hit)
    ensures HitLeq(a, b) || HitLeq(b, a)
  {
    LexTrichotomy(Codes(a.benchmark), Codes(b.benchmark));
    LexTrichotomy(Codes(a.itemId), Codes(b.itemId));
    LexTrichotomy(Codes(a.docId), Codes(b.docId));
  }

  lemma HitLeqIsTransitive(a: Hit, b: Hit, c: Hit)
    ensures HitLeq(a, b) && HitLeq(b, c) ==> HitLeq(a, c)
  {
    LexOrder(Codes(a.docId), Codes(b.docId), Codes(c.docId));
    if LexLess(Codes(a.benchmark), Codes(b.benchmark)) && LexLess(Codes(b.benchmark), Codes(c.benchmark)) {
      LexTransitive(Codes(a.benchmark), Codes(b.benchmark), Codes(c.benchmark));
    }
    if LexLess(Codes(a.itemId), Codes(b.itemId)) && LexLess(Codes(b.itemId), Codes(c.itemId)) {
      LexTransitive(Codes(a.itemId), Codes(b.itemId), Codes(c.itemId));
    }
  }

  /** The verdict on the pair is this hit. */
  ghost predicate Flags(mode: Mode, benchmarks: seq<Benchmark>, r: ItemRef, docId: string, doc: Features,
                        threshold: real, h: Hit) {
    ValidRef(benchmarks, r) && VerdictIn(mode, benchmarks, r, docId, doc, threshold) == Some(h)
  }

  lemma {:induction false} HitsAtMembers(mode: Mode, benchmarks: seq<Benchmark>, refs: seq<ItemRef>, docId: string,
                                         doc: Features, threshold: real, h: Hit)
    requires AllValid(benchmarks, refs)
    ensures h in HitsAt(benchmarks, refs, docId, doc, threshold, mode)
       <==> exists r :: r in refs && Flags(mode, benchmarks, r, docId, doc, threshold, h)
  {
    if refs != [] {
      HitsAtMembers(mode, benchmarks, refs[1..], docId, doc, threshold, h);
      assert forall r :: r in refs <==> r == refs[0] || r in refs[1..];
      assert refs[0] in refs;
    }
  }

  ghost predicate PairFlags(mode: Mode, H: Hasher, kernel: Bytes -> MinHash, d: Doc, benchmarks: seq<Benchmark>,
                            threshold: real, h: Hit) {
    exists r :: Flags(mode, benchmarks, r, d.id, FeaturesOf(H, kernel, d.text), threshold, h)
  }

  lemma DocMembers(mode: Mode, H: Hasher, kernel: Bytes -> MinHash, d: Doc, benchmarks: seq<Benchmark>,
                   threshold: real, h: Hit)
    ensures AllValid(benchmarks, RefsFrom(benchmarks, 0))
    ensures h in HitsAt(benchmarks, RefsFrom(benchmarks, 0), d.id, FeaturesOf(H, kernel, d.text), threshold, mode)
       <==> PairFlags(mode, H, kernel, d, benchmarks, threshold, h)
  {
    RefsFromSpec(benchmarks, 0);
    AllItemsAgree(benchmarks, FeaturesOf(H, kernel, d.text), threshold);
    HitsAtMembers(mode, benchmarks, RefsFrom(benchmarks, 0), d.id, FeaturesOf(H, kernel, d.text), threshold, h);
  }

  lemma {:induction false} AllHitsMembers(mode: Mode, H: Hasher, kernel: Bytes -> MinHash, docs: seq<Doc>,
                                          benchmarks: seq<Benchmark>, threshold: real, h: Hit)
    ensures h in AllHits(H, kernel, docs, benchmarks, threshold, mode)
       <==> exists d :: d in docs && PairFlags(mode, H, kernel, d, benchmarks, threshold, h)
  {
    hide HitsAt, PairFlags, RefsFrom, FeaturesOf;
    if docs != [] {
      var init, last := docs[..|docs| - 1], docs[|docs| - 1];
      AllHitsMembers(mode, H, kernel, init, benchmarks, threshold, h);
      DocMembers(mode, H, kernel, last, benchmarks, threshold, h);
      assert forall d :: d in docs <==> d in init || d == last;
      assert last in docs;
    }
  }

  /** By benchmark name, then item id, then document id. */
  predicate InHitOrder(a: Hit, b: Hit) {
    || LexLess(Codes(a.benchmark), Codes(b.benchmark))
    || (a.benchmark == b.benchmark && LexLess(Codes(a.itemId), Codes(b.itemId)))
    || (a.benchmark == b.benchmark && a.itemId == b.itemId && LexLeq(Codes(a.docId), Codes(b.docId)))
  }

  lemma OrderIsByParts(a: Hit, b: Hit)
    requires HitLeq(a, b)
    ensures InHitOrder(a, b)
  {
    hide Codes;
    if Codes(a.benchmark) == Codes(b.benchmark) {
      CodesInjective(a.benchmark, b.benchmark);
    }
    if Codes(a.itemId) == Codes(b.itemId) {
      CodesInjective(a.itemId, b.itemId);
    }
  }

  /** A report, of the scan or of brute force, holds a hit if and only if some pair has it as its
      verdict there, and is sorted by benchmark, item and document. */
  lemma ReportHolds(mode: Mode, H: Hasher, kernel: Bytes -> MinHash, docs: seq<Doc>, benchmarks: seq<Benchmark>,
                    threshold: real)
    ensures var report := SortBy(HitLeq, AllHits(H, kernel, docs, benchmarks, threshold, mode));
            && (forall h :: h in report <==> exists d ::
                 d in docs && PairFlags(mode, H, kernel, d, benchmarks, threshold, h))
            && forall i, j :: 0 <= i < j < |report| ==> InHitOrder(report[i], report[j])
  {
    hide SortBy, HitLeq, InHitOrder, PairFlags, AllHits, TotalPreorder;
    forall a, b | HitLeq(a, b)
      ensures InHitOrder(a, b)
    {
      OrderIsByParts(a, b);
    }
    var all := AllHits(H, kernel, docs, benchmarks, threshold, mode);
    HitOrder();
    SortBySorts(HitLeq, all);
    SortByPermutes(HitLeq, all);
    SameMultisetSameMembers(all, SortBy(HitLeq, all));
    forall h
      ensures h in all <==> exists d :: d in docs && PairFlags(mode, H, kernel, d, benchmarks, threshold, h)
    {
      AllHitsMembers(mode, H, kernel, docs, benchmarks, threshold, h);
    }
  }

  /** Items made from text are fit for the indexes. */
  lemma FeaturesAreSets(H: Hasher, kernel: Bytes -> MinHash, text: Bytes)
    ensures Ascending(FeaturesOf(H, kernel, text).exact) && Ascending(FeaturesOf(H, kernel, text).near)
  {
    ShingleSetSpec(H, text, EXACT_N);
    ShingleSetSpec(H, text, NEAR_N);
  }
}
