/** What a report says of the documents by their positions, in terms of the components of their
    signatures alone. */
module DedupMeaning {
  import opened Ordering
  import opened Banding
  import opened DedupSpec

  /** The documents have the same signature, or one of their sixteen runs of eight components in
      common and at least t of all 128. */
  ghost predicate Alike(t: real, d: Doc, e: Doc) {
    || d.signature == e.signature
    || ((exists k: nat :: k < 16 && d.signature[8 * k..8 * k + 8] == e.signature[8 * k..8 * k + 8])
        && |Agreements(d.signature, e.signature)| as real >= t * 128.0)
  }

  /** Unless both texts are empty, the estimate is the number of equal components over 128. */
  lemma EstimateCounts(a: MinHash, b: MinHash)
    ensures !(AllMax(a) && AllMax(b)) ==> JaccardEstimate(a, b) * 128.0 == |Agreements(a, b)| as real
    ensures AllMax(a) && AllMax(b) ==> JaccardEstimate(a, b) == 0.0
  {
    MatchesCounts(a, b);
  }

  lemma LinkedIffAlike(t: real, d: Doc, e: Doc)
    ensures Linked(t, d, e) <==> Alike(t, d, e)
  {
    hide JaccardEstimate, Agreements, AllMax;
    EstimateCounts(d.signature, e.signature);
    BandsAreRuns(d.signature, e.signature);
    if AllMax(d.signature) && AllMax(e.signature) {
      AllMaxIsOne(d.signature, e.signature);
    }
  }

  lemma AllMaxIsOne(a: MinHash, b: MinHash)
    requires AllMax(a) && AllMax(b)
    ensures a == b
  {
  }

  lemma BandsAreRuns(a: MinHash, b: MinHash)
    ensures ShareBand(a, b) <==> exists k: nat :: k < 16 && a[8 * k..8 * k + 8] == b[8 * k..8 * k + 8]
  {
    if ShareBand(a, b) {
      var k: nat :| k < 16 && Band(a, k) == Band(b, k);
      assert a[8 * k..8 * k + 8] == b[8 * k..8 * k + 8];
    }
    if k: nat :| k < 16 && a[8 * k..8 * k + 8] == b[8 * k..8 * k + 8] {
      assert Band(a, k) == Band(b, k);
    }
  }

  // ------------------------------------------------------------------------
  // Chains of positions
  // ------------------------------------------------------------------------

  ghost predicate IsChain(t: real, docs: seq<Doc>, p: seq<nat>) {
    && p != [] && (forall k :: 0 <= k < |p| ==> p[k] < |docs|)
    && forall k :: 0 <= k < |p| - 1 ==> Alike(t, docs[p[k]], docs[p[k + 1]])
  }

  /** A chain of alike documents leads from one position to the other. */
  ghost predicate Chained(t: real, docs: seq<Doc>, i: nat, j: nat) {
    exists p :: IsChain(t, docs, p) && p[0] == i && p[|p| - 1] == j
  }

  lemma {:induction false} PositionsOfPath(t: real, docs: seq<Doc>, path: seq<Doc>) returns (p: seq<nat>)
    requires IsPath(Linked, t, DocSet(docs), path)
    ensures IsChain(t, docs, p) && |p| == |path| && forall k :: 0 <= k < |p| ==> docs[p[k]] == path[k]
  {
    hide Linked, Alike;
    var n := |path| - 1;
    assert path[n] in DocSet(docs);
    var last: nat :| last < |docs| && docs[last] == path[n];
    p := [last];
    if n > 0 {
      assert IsPath(Linked, t, DocSet(docs), path[..n]) by {
        forall i | 0 <= i < n - 1
          ensures Linked(t, path[..n][i], path[..n][i + 1])
        {
          assert Linked(t, path[i], path[i + 1]);
        }
      }
      var front := PositionsOfPath(t, docs, path[..n]);
      assert Linked(t, path[n - 1], path[n - 1 + 1]);
      LinkedIffAlike(t, path[n - 1], path[n]);
      p := front + [last];
    }
  }

  lemma JoinedIsChained(t: real, docs: seq<Doc>, i: nat, j: nat)
    requires i < |docs| && j < |docs| && Joined(t, docs, docs[i], docs[j])
    ensures Chained(t, docs, i, j)
  {
    hide Linked, Alike;
    var path :| IsPath(Linked, t, DocSet(docs), path) && path[0] == docs[i] && path[|path| - 1] == docs[j];
    var p := PositionsOfPath(t, docs, path);
    SameIsAlike(t, docs[i]);
    SameIsAlike(t, docs[j]);
    WithEnds(t, docs, i, p, j);
  }

  /** A chain may start and end at any position with the same document. */
  lemma WithEnds(t: real, docs: seq<Doc>, i: nat, p: seq<nat>, j: nat)
    requires IsChain(t, docs, p) && i < |docs| && j < |docs|
    requires Alike(t, docs[i], docs[p[0]]) && Alike(t, docs[p[|p| - 1]], docs[j])
    ensures Chained(t, docs, i, j)
  {
    hide Alike;
    var q := [i] + p + [j];
    forall k | 0 <= k < |q| - 1
      ensures Alike(t, docs[q[k]], docs[q[k + 1]])
    {
      assert q[k] == (if k == 0 then i else p[k - 1]) && q[k + 1] == (if k < |p| then p[k] else j);
    }
    assert IsChain(t, docs, q) && q[0] == i && q[|q| - 1] == j;
  }

  lemma ChainedIsJoined(t: real, docs: seq<Doc>, i: nat, j: nat)
    requires i < |docs| && j < |docs| && Chained(t, docs, i, j)
    ensures Joined(t, docs, docs[i], docs[j])
  {
    hide Linked, Alike;
    var p :| IsChain(t, docs, p) && p[0] == i && p[|p| - 1] == j;
    var path := seq(|p|, k requires 0 <= k < |p| => docs[p[k]]);
    forall k | 0 <= k < |path| - 1
      ensures Linked(t, path[k], path[k + 1])
    {
      LinkedIffAlike(t, docs[p[k]], docs[p[k + 1]]);
    }
    assert IsPath(Linked, t, DocSet(docs), path);
  }

  lemma JoinedIffChained(t: real, docs: seq<Doc>, i: nat, j: nat)
    requires i < |docs| && j < |docs|
    ensures Joined(t, docs, docs[i], docs[j]) <==> Chained(t, docs, i, j)
  {
    hide Joined, Chained;
    if Joined(t, docs, docs[i], docs[j]) {
      JoinedIsChained(t, docs, i, j);
    }
    if Chained(t, docs, i, j) {
      ChainedIsJoined(t, docs, i, j);
    }
  }

  lemma SameIsAlike(t: real, d: Doc)
    ensures Alike(t, d, d)
  {
  }

  // ------------------------------------------------------------------------
  // The report
  // ------------------------------------------------------------------------

  function PositionsWhere(f: Doc -> nat, docs: seq<Doc>): set<nat> {
    set i: nat | i < |docs| && f(docs[i]) == 1
  }

  lemma WhereFront(f: Doc -> nat, docs: seq<Doc>, n: nat)
    requires n + 1 == |docs|
    ensures |PositionsWhere(f, docs)| == |PositionsWhere(f, docs[..n])| + if f(docs[n]) == 1 then 1 else 0
  {
    var front, all := PositionsWhere(f, docs[..n]), PositionsWhere(f, docs);
    assert all == front + (if f(docs[n]) == 1 then {n} else {});
  }

  lemma {:induction false} SumCountsPositions(f: Doc -> nat, docs: seq<Doc>)
    requires forall d :: f(d) <= 1
    ensures SumOf(f, docs) == |PositionsWhere(f, docs)|
  {
    hide SumOf, PositionsWhere;
    if docs == [] {
      NothingToCount(f);
    } else {
      var n: nat := |docs| - 1;
      SumCountsPositions(f, docs[..n]);
      WhereFront(f, docs, n);
      assert docs == docs[..n] + [docs[n]];
      SumOfAppend(f, docs[..n], [docs[n]]);
      SumOfOne(f, docs[n]);
    }
  }

  lemma NothingToCount(f: Doc -> nat)
    ensures SumOf(f, []) == 0 && PositionsWhere(f, []) == {}
  {
  }

  /** The positions of the documents with an id that a chain from the head reaches. */
  ghost function Reached(t: real, docs: seq<Doc>, head: nat, id: string): set<nat> {
    set i: nat | i < |docs| && docs[i].id == id && Chained(t, docs, head, i)
  }

  /** The ids, ascending, of the documents reached from the head, as often as they occur. */
  ghost predicate ListsReached(t: real, docs: seq<Doc>, c: Cluster, head: nat) {
    && (forall a, b :: 0 <= a < b < |c| ==> LexLeq(Codes(c[a]), Codes(c[b])))
    && forall id :: multiset(c)[id] == |Reached(t, docs, head, id)|
  }

  /** Each cluster is of the documents reached from its head, two or more; no head is reached from
      another; and any two alike documents are in the cluster of some head. */
  ghost predicate ListsAll(t: real, docs: seq<Doc>, listing: seq<Cluster>, heads: seq<nat>) {
    && |heads| == |listing|
    && (forall k :: 0 <= k < |heads| ==>
          heads[k] < |docs| && |listing[k]| >= 2 && ListsReached(t, docs, listing[k], heads[k]))
    && (forall k, l :: 0 <= k < |heads| && 0 <= l < |heads| && k != l ==> !Chained(t, docs, heads[k], heads[l]))
    && (forall i: nat, j: nat :: i < |docs| && j < |docs| && i != j && Alike(t, docs[i], docs[j]) ==>
          exists k :: 0 <= k < |heads| && Chained(t, docs, heads[k], i) && Chained(t, docs, heads[k], j))
  }

  ghost predicate Describes(t: real, docs: seq<Doc>, clusters: seq<Cluster>) {
    && (exists listing, heads :: ListsAll(t, docs, listing, heads) && multiset(clusters) == multiset(listing))
    && (forall k, l :: 0 <= k < l < |clusters| ==>
          && clusters[k] != [] && clusters[l] != []
          && (|clusters[k]| > |clusters[l]|
              || (|clusters[k]| == |clusters[l]| && LexLeq(Codes(clusters[k][0]), Codes(clusters[l][0])))))
  }

  lemma ClusterIsReached(t: real, docs: seq<Doc>, c: Cluster, head: nat)
    requires head < |docs| && IsClusterOf(t, docs, c, docs[head])
    ensures ListsReached(t, docs, c, head)
  {
    hide Joined, Chained;
    forall id
      ensures IdCount(t, docs, docs[head], id) == |Reached(t, docs, head, id)|
    {
      var f := x => if Joined(t, docs, docs[head], x) && x.id == id then 1 else 0;
      SumCountsPositions(f, docs);
      forall i: nat | i < |docs|
        ensures Joined(t, docs, docs[head], docs[i]) <==> Chained(t, docs, head, i)
      {
        JoinedIffChained(t, docs, head, i);
      }
      assert Reached(t, docs, head, id) == PositionsWhere(f, docs);
    }
  }

  lemma {:induction false} PositionsOf(docs: seq<Doc>, some: seq<Doc>) returns (p: seq<nat>)
    requires forall k :: 0 <= k < |some| ==> some[k] in docs
    ensures |p| == |some| && forall k :: 0 <= k < |p| ==> p[k] < |docs| && docs[p[k]] == some[k]
  {
    p := [];
    if some != [] {
      var n := |some| - 1;
      p := PositionsOf(docs, some[..n]);
      var last: nat :| last < |docs| && docs[last] == some[n];
      p := p + [last];
    }
  }

  /** Two alike documents are in a component of two or more. */
  lemma AlikeMakeTwo(t: real, docs: seq<Doc>, i: nat, j: nat)
    requires i < |docs| && j < |docs| && i != j && Alike(t, docs[i], docs[j])
    ensures Joined(t, docs, docs[i], docs[j]) && ComponentSize(t, docs, docs[i]) >= 2
  {
    hide Alike, Linked;
    LinkedIffAlike(t, docs[i], docs[j]);
    ConnectedByLink(Linked, t, DocSet(docs), docs[i], docs[j]);
    ConnectedToItself(Linked, t, DocSet(docs), docs[i]);
    var f := x => if Joined(t, docs, docs[i], x) then 1 else 0;
    SumCountsPositions(f, docs);
    assert {i, j} <= PositionsWhere(f, docs);
    SubsetSize({i, j}, PositionsWhere(f, docs));
  }

  lemma {:induction false} SubsetSize(a: set<nat>, b: set<nat>)
    requires a <= b
    ensures |a| <= |b|
  {
    if a != {} {
      var x :| x in a;
      SubsetSize(a - {x}, b - {x});
    }
  }

  lemma PairIsListed(t: real, docs: seq<Doc>, listing: seq<Cluster>, heads: seq<Doc>, p: seq<nat>, i: nat, j: nat)
    requires Lists(t, docs, listing, heads)
    requires |p| == |heads| && forall k :: 0 <= k < |p| ==> p[k] < |docs| && docs[p[k]] == heads[k]
    requires i < |docs| && j < |docs| && i != j && Alike(t, docs[i], docs[j])
    ensures exists k :: 0 <= k < |p| && Chained(t, docs, p[k], i) && Chained(t, docs, p[k], j)
  {
    hide Alike, Linked, Connected, Chained, ComponentSize;
    AlikeMakeTwo(t, docs, i, j);
    var k :| 0 <= k < |heads| && Joined(t, docs, heads[k], docs[i]);
    ConnectedTransitive(Linked, t, DocSet(docs), heads[k], docs[i], docs[j]);
    JoinedIffChained(t, docs, p[k], i);
    JoinedIffChained(t, docs, p[k], j);
  }

  /** A report describes the documents: two that share a run of eight components and at least t of
      all stand in one cluster, clusters come about in no other way but equal signatures, and they
      are listed larger first and then by first id. */
  lemma ReportDescribes(t: real, docs: seq<Doc>, clusters: seq<Cluster>)
    requires IsReport(t, docs, clusters)
    ensures Describes(t, docs, clusters)
  {
    hide Joined, Chained, Alike, ComponentSize, IsClusterOf, ListsReached, ListedFor;
    var listing, heads :| Lists(t, docs, listing, heads) && multiset(clusters) == multiset(listing);
    var p := PositionsOf(docs, heads);
    forall k | 0 <= k < |p|
      ensures ListsReached(t, docs, listing[k], p[k])
    {
      ClusterIsReached(t, docs, listing[k], p[k]);
    }
    forall k, l | 0 <= k < |p| && 0 <= l < |p| && k != l
      ensures !Chained(t, docs, p[k], p[l])
    {
      JoinedIffChained(t, docs, p[k], p[l]);
    }
    forall i: nat, j: nat | i < |docs| && j < |docs| && i != j && Alike(t, docs[i], docs[j])
      ensures exists k :: 0 <= k < |p| && Chained(t, docs, p[k], i) && Chained(t, docs, p[k], j)
    {
      PairIsListed(t, docs, listing, heads, p, i, j);
    }
    assert ListsAll(t, docs, listing, p);
    SameMultisetSameMembers(clusters, listing);
    forall k | 0 <= k < |clusters|
      ensures clusters[k] != []
    {
      assert clusters[k] in clusters;
    }
  }
}
