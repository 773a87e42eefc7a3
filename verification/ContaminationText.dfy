/** What the contamination scan's verdicts say of the texts: their runs of words and the components
    of their MinHash signatures. */
module ContaminationText {
  import opened Basics
  import opened Ordering
  import opened Banding
  import opened Shingles
  import opened TextMinhash
  import opened Contamination
  import DedupMeaning
  import DedupSpec

  /** The share of components in which two signatures agree is at the threshold. */
  ghost predicate AlikeAt(threshold: real, a: MinHash, b: MinHash) {
    AlikeParts(a, b) as real >= threshold * 128.0
  }

  /** In how many components the signatures agree; none count if both are the empty text's. */
  ghost function AlikeParts(a: MinHash, b: MinHash): nat {
    if exists i :: 0 <= i < 128 && (a[i] != 0xFFFF_FFFF_FFFF_FFFF || b[i] != 0xFFFF_FFFF_FFFF_FFFF)
    then |Agreements(a, b)| else 0
  }

  lemma EstimateFires(threshold: real, a: MinHash, b: MinHash)
    ensures DedupSpec.JaccardEstimate(a, b) >= threshold <==> AlikeAt(threshold, a, b)
    ensures DedupSpec.JaccardEstimate(a, b) * 128.0 == AlikeParts(a, b) as real
  {
    hide Agreements;
    DedupMeaning.EstimateCounts(a, b);
  }

  /** An exact hit is a run of thirteen words in document and item, or two different runs of
      theirs whose joined words hash to the same eight bytes. */
  lemma ExactMeans(H: Hasher, K: KeyedHasher, doc: Bytes, item: Bytes)
    ensures var a, b := Runs(WordsOf(doc), 13), Runs(WordsOf(item), 13);
            HaveCommon(TextFeatures(H, K, doc).exact, TextFeatures(H, K, item).exact) <==>
              a * b != {} || exists x, y :: x in a && y in b && KeyCollision(H, Join(x), Join(y))
  {
    hide Runs, ShingleSet, WordsOf, Join;
    CommonShingleMeans(H, doc, item, 13);
  }

  /** The item with this text, and the verdict on it. */
  ghost predicate IsItem(H: Hasher, K: KeyedHasher, benchmarks: seq<Benchmark>, r: ItemRef, text: Bytes) {
    ValidRef(benchmarks, r) && ItemAt(benchmarks, r).features == TextFeatures(H, K, text)
  }

  /** Unless runs of the two texts collide: the pair is a hit when they have a run of thirteen words
      in common, or one of five and signatures alike at the threshold, or nine tenths of the item's
      different runs of five; and the hit says which of these, and how many runs of thirteen and what
      part of the runs of five they have in common. */
  lemma VerdictOnTexts(H: Hasher, K: KeyedHasher, benchmarks: seq<Benchmark>, r: ItemRef, docId: string,
                       doc: Bytes, item: Bytes, threshold: real)
    requires IsItem(H, K, benchmarks, r, item) && threshold > 0.0
    requires !RunsCollide(H, Runs(WordsOf(item), 13) + Runs(WordsOf(doc), 13))
    requires !RunsCollide(H, Runs(WordsOf(item), 5) + Runs(WordsOf(doc), 5))
    ensures var verdict := Judge(benchmarks, r, docId, TextFeatures(H, K, doc), threshold);
            var long := Runs(WordsOf(item), 13) * Runs(WordsOf(doc), 13);
            var all, short := Runs(WordsOf(item), 5), Runs(WordsOf(item), 5) * Runs(WordsOf(doc), 5);
            var near := short != {} && AlikeAt(threshold, Compute(H, K, doc), Compute(H, K, item));
            var contained := all != {} && 10 * |short| >= 9 * |all|;
            && (verdict.Some? <==> long != {} || near || contained)
            && (verdict.Some? ==>
                 var h := verdict.value;
                 && (h.exact <==> long != {}) && (h.near <==> near) && (h.contained <==> contained)
                 && (h.benchmark, h.itemId, h.docId) == (benchmarks[r.0].name, ItemAt(benchmarks, r).id, docId)
                 && h.sharedExact == |long|
                 && h.jaccard * 128.0 ==
                    (if short != {} then AlikeParts(Compute(H, K, doc), Compute(H, K, item)) else 0) as real
                 && h.containment == (if all == {} then 0.0 else |short| as real / |all| as real))
  {
    hide Runs, ShingleSet, WordsOf, Judge, Compute, AlikeAt, AlikeParts, HaveCommon, RunsCollide, Shared;
    var d, f := TextFeatures(H, K, doc), TextFeatures(H, K, item);
    SharedRuns(H, K, doc, item);
    SharedMeansCommon(d.exact, f.exact);
    SharedMeansCommon(d.near, f.near);
    EstimateFires(threshold, d.signature, f.signature);
    VerdictMeans(benchmarks, r, docId, d, threshold);
  }

  lemma SharedRuns(H: Hasher, K: KeyedHasher, doc: Bytes, item: Bytes)
    requires !RunsCollide(H, Runs(WordsOf(item), 13) + Runs(WordsOf(doc), 13))
    requires !RunsCollide(H, Runs(WordsOf(item), 5) + Runs(WordsOf(doc), 5))
    ensures var d, f := TextFeatures(H, K, doc), TextFeatures(H, K, item);
            && Shared(d.exact, f.exact) == |Runs(WordsOf(item), 13) * Runs(WordsOf(doc), 13)|
            && Shared(d.near, f.near) == |Runs(WordsOf(item), 5) * Runs(WordsOf(doc), 5)|
            && |f.near| == |Runs(WordsOf(item), 5)|
            && d.signature == Compute(H, K, doc) && f.signature == Compute(H, K, item)
  {
    hide Runs, ShingleSet, WordsOf, Compute, RunsCollide;
    var d, f := TextFeatures(H, K, doc), TextFeatures(H, K, item);
    ShinglesCountRuns(H, item, doc, 13);
    ShinglesCountRuns(H, item, doc, 5);
    assert ToSet(d.exact) * ToSet(f.exact) == ToSet(f.exact) * ToSet(d.exact);
    assert ToSet(d.near) * ToSet(f.near) == ToSet(f.near) * ToSet(d.near);
    ShingleSetSpec(H, item, 5);
    SetOfAscending(f.near);
  }
}
