/** What near-duplicate clustering should report: the connected components, of at least two
    documents, of the graph that links documents with the same signature, or with a common
    LSH band and a Jaccard estimate at the threshold. */
module DedupSpec {
  import opened Basics
  import opened Ordering
  import opened Banding

  const LSH_BANDS: nat := 16

  /** A document and the MinHash of its normalized text. */
  datatype Doc = Doc(id: string, signature: MinHash)

  predicate AllMax(s: MinHash) {
    forall i :: 0 <= i < 128 ==> s[i] == 0xFFFF_FFFF_FFFF_FFFF
  }

  /** The fraction of equal components; two empty-input signatures score zero. */
  function JaccardEstimate(a: MinHash, b: MinHash): (j: real)
    ensures 0.0 <= j <= 1.0
  {
    if AllMax(a) && AllMax(b) then 0.0 else Matches(a, b) as real / 128.0
  }

  function Band(s: MinHash, k: nat): seq<u64>
    requires k < LSH_BANDS
  {
    s[8 * k..8 * k + 8]
  }

  predicate ShareBand(a: MinHash, b: MinHash) {
    exists k: nat :: k < LSH_BANDS && Band(a, k) == Band(b, k)
  }

  predicate Linked(t: real, d: Doc, e: Doc) {
    d.signature == e.signature
    || (ShareBand(d.signature, e.signature) && JaccardEstimate(d.signature, e.signature) >= t)
  }

  /** The all-pairs graph, without the banding shortcut. */
  predicate LinkedAllPairs(t: real, d: Doc, e: Doc) {
    d.signature == e.signature || JaccardEstimate(d.signature, e.signature) >= t
  }

  type Link = (real, Doc, Doc) -> bool

  // ------------------------------------------------------------------------
  // Connectivity
  // ------------------------------------------------------------------------

  ghost predicate IsPath(link: Link, t: real, V: set<Doc>, p: seq<Doc>) {
    && p != []
    && (forall i :: 0 <= i < |p| ==> p[i] in V)
    && (forall i :: 0 <= i < |p| - 1 ==> link(t, p[i], p[i + 1]))
  }

  ghost predicate Connected(link: Link, t: real, V: set<Doc>, d: Doc, e: Doc) {
    exists p :: IsPath(link, t, V, p) && p[0] == d && p[|p| - 1] == e
  }

  lemma ConnectedByLink(link: Link, t: real, V: set<Doc>, d: Doc, e: Doc)
    requires d in V && e in V && link(t, d, e)
    ensures Connected(link, t, V, d, e)
  {
    assert IsPath(link, t, V, [d, e]);
  }

  lemma ConnectedToItself(link: Link, t: real, V: set<Doc>, d: Doc)
    requires d in V
    ensures Connected(link, t, V, d, d)
  {
    assert IsPath(link, t, V, [d]);
  }

  lemma ConnectedTransitive(link: Link, t: real, V: set<Doc>, d: Doc, e: Doc, f: Doc)
    requires Connected(link, t, V, d, e) && Connected(link, t, V, e, f)
    ensures Connected(link, t, V, d, f)
  {
    var p :| IsPath(link, t, V, p) && p[0] == d && p[|p| - 1] == e;
    var q :| IsPath(link, t, V, q) && q[0] == e && q[|q| - 1] == f;
    var r := p + q[1..];
    forall i | 0 <= i < |r| - 1
      ensures link(t, r[i], r[i + 1])
    {
      if i >= |p| - 1 {
        assert link(t, q[i - |p| + 1], q[i - |p| + 2]);
      }
    }
    assert IsPath(link, t, V, r) && r[|r| - 1] == f;
  }

  /** A label that links preserve is constant on components. */
  lemma ConnectedKeepsLabel(link: Link, t: real, V: set<Doc>, mark: Doc -> nat, d: Doc, e: Doc)
    requires forall x, y :: x in V && y in V && link(t, x, y) ==> mark(x) == mark(y)
    requires Connected(link, t, V, d, e)
    ensures mark(d) == mark(e)
  {
    var p :| IsPath(link, t, V, p) && p[0] == d && p[|p| - 1] == e;
    PathKeepsLabel(link, t, V, mark, p, |p| - 1);
  }

  lemma {:induction false} PathKeepsLabel(link: Link, t: real, V: set<Doc>, mark: Doc -> nat, p: seq<Doc>, i: nat)
    requires forall x, y :: x in V && y in V && link(t, x, y) ==> mark(x) == mark(y)
    requires IsPath(link, t, V, p) && i < |p|
    ensures mark(p[0]) == mark(p[i])
  {
    if i > 0 {
      PathKeepsLabel(link, t, V, mark, p, i - 1);
      assert link(t, p[i - 1], p[i - 1 + 1]);
    }
  }

  /** Fewer links, finer components. */
  lemma ConnectedMonotone(sub: Link, sup: Link, t: real, V: set<Doc>, d: Doc, e: Doc)
    requires forall x, y :: sub(t, x, y) ==> sup(t, x, y)
    requires Connected(sub, t, V, d, e)
    ensures Connected(sup, t, V, d, e)
  {
    var p :| IsPath(sub, t, V, p) && p[0] == d && p[|p| - 1] == e;
    assert IsPath(sup, t, V, p);
  }

  lemma {:induction false} MatchesSymmetric<T>(a: seq<T>, b: seq<T>)
    requires |a| == |b|
    ensures Matches(a, b) == Matches(b, a)
    decreases |a|
  {
    if a != [] {
      MatchesSymmetric(a[1..], b[1..]);
    }
  }

  /** The estimate does not depend on the order of its arguments, and is 1 exactly for equal
      signatures other than the empty input's. */
  lemma JaccardMeans(a: MinHash, b: MinHash)
    ensures JaccardEstimate(a, b) == JaccardEstimate(b, a)
    ensures JaccardEstimate(a, b) == 1.0 <==> a == b && !AllMax(a)
  {
    MatchesSymmetric(a, b);
    MatchesAll(a, b);
  }

  lemma LinkedSymmetric(t: real, d: Doc, e: Doc)
    ensures Linked(t, d, e) <==> Linked(t, e, d)
  {
    MatchesSymmetric(d.signature, e.signature);
  }

  // ------------------------------------------------------------------------
  // Banding against all pairs
  // ------------------------------------------------------------------------

  /** The reported components always refine the all-pairs components. */
  lemma BandingRefinesAllPairs(t: real, V: set<Doc>, d: Doc, e: Doc)
    requires Connected(Linked, t, V, d, e)
    ensures Connected(LinkedAllPairs, t, V, d, e)
  {
    ConnectedMonotone(Linked, LinkedAllPairs, t, V, d, e);
  }

  lemma {:induction false} EqualChunksShareBand(a: MinHash, b: MinHash, k: nat)
    requires k <= LSH_BANDS && EqualChunks(8, a[8 * k..], b[8 * k..]) > 0
    ensures ShareBand(a, b)
    decreases LSH_BANDS - k
  {
    if k < LSH_BANDS {
      assert a[8 * k..][..8] == Band(a, k) && b[8 * k..][..8] == Band(b, k);
      assert a[8 * k..][8..] == a[8 * (k + 1)..] && b[8 * k..][8..] == b[8 * (k + 1)..];
      if Band(a, k) != Band(b, k) {
        EqualChunksShareBand(a, b, k + 1);
      }
    }
  }

  /** Above 112/128 at most 15 components differ, too few to touch all 16 bands. */
  lemma HighThresholdSharesBand(a: MinHash, b: MinHash)
    requires Matches(a, b) > 112
    ensures ShareBand(a, b)
  {
    MismatchesSpoilFewChunks(8, 16, a, b);
    assert a[8 * 0..] == a && b[8 * 0..] == b;
    EqualChunksShareBand(a, b, 0);
  }

  /** For every threshold above 112/128 the reported components are the all-pairs ones. */
  lemma HighThresholdIsAllPairs(t: real, V: set<Doc>, d: Doc, e: Doc)
    requires t > 112.0 / 128.0
    ensures Connected(Linked, t, V, d, e) <==> Connected(LinkedAllPairs, t, V, d, e)
  {
    forall x, y
      ensures LinkedAllPairs(t, x, y) ==> Linked(t, x, y)
    {
      if LinkedAllPairs(t, x, y) && x.signature != y.signature {
        assert Matches(x.signature, y.signature) as real / 128.0 >= t;
        HighThresholdSharesBand(x.signature, y.signature);
      }
    }
    if Connected(LinkedAllPairs, t, V, d, e) {
      ConnectedMonotone(LinkedAllPairs, Linked, t, V, d, e);
    }
    if Connected(Linked, t, V, d, e) {
      BandingRefinesAllPairs(t, V, d, e);
    }
  }

  /** Two signatures that differ once in each band. */
  function Zeros(): MinHash {
    seq(128, _ => 0)
  }

  function OneInEachBand(): MinHash {
    seq(128, i => if i % 8 == 0 then 1 else 0)
  }

  lemma {:induction false} SpoiledMatches(k: nat)
    requires k <= LSH_BANDS
    ensures Matches(Zeros()[8 * k..], OneInEachBand()[8 * k..]) == 7 * (LSH_BANDS - k)
    decreases LSH_BANDS - k
  {
    hide Matches;
    var a, b := Zeros(), OneInEachBand();
    if k < LSH_BANDS {
      SpoiledMatches(k + 1);
      assert a[8 * k..] == [a[8 * k]] + a[8 * k + 1..8 * k + 8] + a[8 * (k + 1)..];
      assert b[8 * k..] == [b[8 * k]] + b[8 * k + 1..8 * k + 8] + b[8 * (k + 1)..];
      MatchesAppend([a[8 * k]] + a[8 * k + 1..8 * k + 8], [b[8 * k]] + b[8 * k + 1..8 * k + 8],
                    a[8 * (k + 1)..], b[8 * (k + 1)..]);
      MatchesAppend([a[8 * k]], [b[8 * k]], a[8 * k + 1..8 * k + 8], b[8 * k + 1..8 * k + 8]);
      MatchesAll([a[8 * k]], [b[8 * k]]);
      MatchesAll(a[8 * k + 1..8 * k + 8], b[8 * k + 1..8 * k + 8]);
    } else {
      NothingMatches(a[8 * k..], b[8 * k..]);
    }
  }

  lemma NothingMatches<T>(a: seq<T>, b: seq<T>)
    requires a == [] && b == []
    ensures Matches(a, b) == 0
  {
  }

  /** At 112/128 and below, the default 0.80 included, a pair with one mismatch per band is
      linked in the all-pairs graph and never compared by the banded one. */
  lemma LowThresholdMisses(t: real) returns (d: Doc, e: Doc)
    requires t <= 112.0 / 128.0
    ensures d.id != e.id
    ensures Connected(LinkedAllPairs, t, {d, e}, d, e) && !Connected(Linked, t, {d, e}, d, e)
  {
    d, e := Doc("a", Zeros()), Doc("b", OneInEachBand());
    hide Matches, Connected;
    SpoiledMatches(0);
    assert d.signature[8 * 0..] == d.signature && e.signature[8 * 0..] == e.signature;
    assert d.signature[0] != 0xFFFF_FFFF_FFFF_FFFF;
    ConnectedByLink(LinkedAllPairs, t, {d, e}, d, e);
    forall k: nat | k < LSH_BANDS
      ensures Band(d.signature, k) != Band(e.signature, k)
    {
      assert Band(d.signature, k)[0] == 0 && Band(e.signature, k)[0] == 1;
    }
    assert d.signature[0] != e.signature[0];
    assert !Linked(t, d, e) && !Linked(t, e, d) by {
      LinkedSymmetric(t, d, e);
    }
    if Connected(Linked, t, {d, e}, d, e) {
      ConnectedKeepsLabel(Linked, t, {d, e}, (x: Doc) => if x == d then 0 else 1, d, e);
    }
  }

  /** The bound is sharp: banding loses no component, on any documents, exactly above it. */
  lemma BandingIsAllPairsIff(t: real)
    ensures (forall V, d, e :: Connected(Linked, t, V, d, e) <==> Connected(LinkedAllPairs, t, V, d, e)) <==>
                t > 112.0 / 128.0
  {
    if t > 112.0 / 128.0 {
      forall V, d, e
        ensures Connected(Linked, t, V, d, e) <==> Connected(LinkedAllPairs, t, V, d, e)
      {
        HighThresholdIsAllPairs(t, V, d, e);
      }
    } else {
      var d, e := LowThresholdMisses(t);
    }
  }

  // ------------------------------------------------------------------------
  // The report
  // ------------------------------------------------------------------------

  type Cluster = seq<string>

  ghost function DocSet(docs: seq<Doc>): set<Doc> {
    set d | d in docs
  }

  ghost predicate DistinctDocs(docs: seq<Doc>) {
    forall i, j :: 0 <= i < j < |docs| ==> docs[i].id != docs[j].id
  }

  ghost predicate Joined(t: real, docs: seq<Doc>, d: Doc, e: Doc) {
    Connected(Linked, t, DocSet(docs), d, e)
  }

  /** How many documents of d's component are listed, and how many of them under this id. */
  ghost function ComponentSize(t: real, docs: seq<Doc>, d: Doc): nat {
    SumOf(x => if Joined(t, docs, d, x) then 1 else 0, docs)
  }

  ghost function IdCount(t: real, docs: seq<Doc>, d: Doc, id: string): nat {
    SumOf(x => if Joined(t, docs, d, x) && x.id == id then 1 else 0, docs)
  }

  function IdLeq(): (string, string) -> bool {
    (a: string, b: string) => LexLeq(Codes(a), Codes(b))
  }

  function ClusterKey(c: Cluster): seq<int> {
    if c == [] then [] else Codes(c[0])
  }

  /** Size descending, then first id ascending. */
  function ClusterLeq(): (Cluster, Cluster) -> bool {
    (a: Cluster, b: Cluster) => |a| > |b| || (|a| == |b| && LexLeq(ClusterKey(a), ClusterKey(b)))
  }

  /** c lists the ids of d's component, in order, each as often as the component has it. */
  ghost predicate IsClusterOf(t: real, docs: seq<Doc>, c: Cluster, d: Doc) {
    SortedBy(IdLeq(), c) && forall id :: multiset(c)[id] == IdCount(t, docs, d, id)
  }

  ghost predicate Separate(t: real, docs: seq<Doc>, heads: seq<Doc>) {
    forall k, l :: 0 <= k < |heads| && 0 <= l < |heads| && k != l ==> !Joined(t, docs, heads[k], heads[l])
  }

  /** Clusters of different components, each beside a document of its own. */
  ghost predicate ListsSome(t: real, docs: seq<Doc>, listing: seq<Cluster>, heads: seq<Doc>) {
    && |heads| == |listing|
    && (forall k :: 0 <= k < |heads| ==>
          heads[k] in docs && |listing[k]| >= 2 && IsClusterOf(t, docs, listing[k], heads[k]))
    && Separate(t, docs, heads)
  }

  ghost predicate ListedFor(t: real, docs: seq<Doc>, heads: seq<Doc>, d: Doc) {
    exists k :: 0 <= k < |heads| && Joined(t, docs, heads[k], d)
  }

  /** The clusters of all components of two or more documents, each once. */
  ghost predicate Lists(t: real, docs: seq<Doc>, listing: seq<Cluster>, heads: seq<Doc>) {
    && ListsSome(t, docs, listing, heads)
    && forall d :: d in docs && ComponentSize(t, docs, d) >= 2 ==> ListedFor(t, docs, heads, d)
  }

  ghost predicate IsReport(t: real, docs: seq<Doc>, clusters: seq<Cluster>) {
    && SortedBy(ClusterLeq(), clusters)
    && exists listing, heads :: Lists(t, docs, listing, heads) && multiset(clusters) == multiset(listing)
  }

  lemma IdOrder()
    ensures TotalPreorder(IdLeq())
    ensures forall c: Cluster :: AntisymmetricOn(IdLeq(), c)
  {
    forall x: string, y: string, z: string
      ensures IdLeq()(x, y) || IdLeq()(y, x)
      ensures IdLeq()(x, y) && IdLeq()(y, z) ==> IdLeq()(x, z)
      ensures IdLeq()(x, y) && IdLeq()(y, x) ==> x == y
    {
      LexOrder(Codes(x), Codes(y), Codes(z));
      if Codes(x) == Codes(y) {
        CodesInjective(x, y);
      }
    }
  }

  lemma ClusterOrder()
    ensures TotalPreorder(ClusterLeq())
  {
    forall x: Cluster, y: Cluster, z: Cluster
      ensures ClusterLeq()(x, y) || ClusterLeq()(y, x)
      ensures ClusterLeq()(x, y) && ClusterLeq()(y, z) ==> ClusterLeq()(x, z)
    {
      LexOrder(ClusterKey(x), ClusterKey(y), ClusterKey(z));
    }
  }

  // ------------------------------------------------------------------------
  // How far the report is determined
  // ------------------------------------------------------------------------

  lemma JoinedSymmetric(t: real, docs: seq<Doc>, d: Doc, e: Doc)
    requires Joined(t, docs, d, e)
    ensures Joined(t, docs, e, d)
  {
    var V := DocSet(docs);
    var p :| IsPath(Linked, t, V, p) && p[0] == d && p[|p| - 1] == e;
    var q := seq(|p|, i requires 0 <= i < |p| => p[|p| - 1 - i]);
    forall i | 0 <= i < |q| - 1
      ensures Linked(t, q[i], q[i + 1])
    {
      var j := |p| - 2 - i;
      assert Linked(t, p[j], p[j + 1]);
      LinkedSymmetric(t, p[j], p[j + 1]);
    }
    assert IsPath(Linked, t, V, q) && q[|q| - 1] == d;
  }

  lemma JoinedTransitive(t: real, docs: seq<Doc>, d: Doc, e: Doc, f: Doc)
    requires Joined(t, docs, d, e) && Joined(t, docs, e, f)
    ensures Joined(t, docs, d, f)
  {
    ConnectedTransitive(Linked, t, DocSet(docs), d, e, f);
  }

  lemma JoinedAlike(t: real, docs: seq<Doc>, a: Doc, b: Doc)
    requires Joined(t, docs, a, b)
    ensures forall x :: Joined(t, docs, a, x) <==> Joined(t, docs, b, x)
  {
    hide Joined;
    JoinedSymmetric(t, docs, a, b);
    forall x
      ensures Joined(t, docs, a, x) <==> Joined(t, docs, b, x)
    {
      if Joined(t, docs, a, x) {
        JoinedTransitive(t, docs, b, a, x);
      }
      if Joined(t, docs, b, x) {
        JoinedTransitive(t, docs, a, b, x);
      }
    }
  }

  lemma JoinedCountAlike(t: real, docs: seq<Doc>, a: Doc, b: Doc, id: string)
    requires Joined(t, docs, a, b)
    ensures IdCount(t, docs, a, id) == IdCount(t, docs, b, id)
  {
    hide Joined;
    JoinedAlike(t, docs, a, b);
    SumOfEqual(x => if Joined(t, docs, a, x) && x.id == id then 1 else 0,
               x => if Joined(t, docs, b, x) && x.id == id then 1 else 0, docs);
  }

  lemma SameComponentSize(t: real, docs: seq<Doc>, a: Doc, b: Doc)
    requires Joined(t, docs, a, b)
    ensures ComponentSize(t, docs, a) == ComponentSize(t, docs, b)
  {
    hide Joined;
    JoinedAlike(t, docs, a, b);
    SumOfEqual(x => if Joined(t, docs, a, x) then 1 else 0, x => if Joined(t, docs, b, x) then 1 else 0, docs);
  }

  /** A component has one cluster. */
  lemma ClusterOfIsUnique(t: real, docs: seq<Doc>, c: Cluster, c': Cluster, a: Doc, b: Doc)
    requires IsClusterOf(t, docs, c, a) && IsClusterOf(t, docs, c', b) && Joined(t, docs, a, b)
    ensures c == c'
  {
    hide IdCount, Joined;
    forall id
      ensures multiset(c)[id] == multiset(c')[id]
    {
      JoinedCountAlike(t, docs, a, b, id);
    }
    assert multiset(c) == multiset(c');
    IdOrder();
    SortedUnique(IdLeq(), c, c');
  }

  ghost predicate Matched(t: real, docs: seq<Doc>, xs: seq<Doc>, ys: seq<Doc>) {
    forall d :: d in xs ==> ListedFor(t, docs, ys, d)
  }

  lemma HeadsStayMatched(t: real, docs: seq<Doc>, xs: seq<Doc>, ys: seq<Doc>, l: nat)
    requires xs != [] && l < |ys| && Joined(t, docs, ys[l], xs[|xs| - 1])
    requires Separate(t, docs, xs) && Separate(t, docs, ys) && Matched(t, docs, xs, ys) && Matched(t, docs, ys, xs)
    ensures Matched(t, docs, xs[..|xs| - 1], Without(ys, l)) && Matched(t, docs, Without(ys, l), xs[..|xs| - 1])
    ensures Separate(t, docs, Without(ys, l))
  {
    hide Joined;
    var k, zs := |xs| - 1, Without(ys, l);
    JoinedSymmetric(t, docs, ys[l], xs[k]);
    forall i | 0 <= i < k
      ensures ListedFor(t, docs, zs, xs[i])
    {
      assert xs[i] in xs;
      var j :| 0 <= j < |ys| && Joined(t, docs, ys[j], xs[i]);
      if j == l {
        JoinedTransitive(t, docs, xs[k], ys[l], xs[i]);
      }
      assert zs[if j < l then j else j - 1] == ys[j];
    }
    forall j | 0 <= j < |zs|
      ensures ListedFor(t, docs, xs[..k], zs[j])
    {
      var j' := if j < l then j else j + 1;
      assert zs[j] == ys[j'] && ys[j'] in ys;
      var i :| 0 <= i < |xs| && Joined(t, docs, xs[i], ys[j']);
      if i == k {
        JoinedTransitive(t, docs, ys[l], xs[k], ys[j']);
      }
      assert xs[..k][i] == xs[i];
    }
  }

  lemma ListsWithout(t: real, docs: seq<Doc>, y: seq<Cluster>, ys: seq<Doc>, l: nat)
    requires ListsSome(t, docs, y, ys) && l < |ys|
    ensures Separate(t, docs, ys) && |y| == |ys|
    ensures Separate(t, docs, Without(ys, l)) ==> ListsSome(t, docs, Without(y, l), Without(ys, l))
  {
    hide IsClusterOf, Separate;
  }

  /** Listings whose heads are joined to one another are of the same clusters. */
  lemma {:induction false} MatchedListsAgree(t: real, docs: seq<Doc>, x: seq<Cluster>, xs: seq<Doc>, y: seq<Cluster>,
                                             ys: seq<Doc>)
    requires ListsSome(t, docs, x, xs) && ListsSome(t, docs, y, ys)
    requires Matched(t, docs, xs, ys) && Matched(t, docs, ys, xs)
    ensures multiset(x) == multiset(y)
    decreases |x|
  {
    SameLengths(t, docs, x, xs);
    SameLengths(t, docs, y, ys);
    hide *;
    if x == [] {
      if ys != [] {
        var l := MatchOf(t, docs, ys, xs, 0);
      }
    } else {
      var k := |x| - 1;
      var l := MatchOf(t, docs, xs, ys, k);
      JoinedSymmetric(t, docs, ys[l], xs[k]);
      ListedClusters(t, docs, x, xs, k, y, ys, l);
      ListsWithout(t, docs, y, ys, l);
      ListsWithout(t, docs, x, xs, k);
      HeadsStayMatched(t, docs, xs, ys, l);
      SeparateInit(t, docs, xs);
      WithoutLast(x);
      WithoutLast(xs);
      MatchedListsAgree(t, docs, x[..k], xs[..k], Without(y, l), Without(ys, l));
      PutBack(x, y, l);
    }
  }

  lemma PutBack<T>(x: seq<T>, y: seq<T>, l: nat)
    requires x != [] && l < |y| && x[|x| - 1] == y[l] && multiset(x[..|x| - 1]) == multiset(Without(y, l))
    ensures multiset(x) == multiset(y)
  {
    WithoutMultiset(y, l);
    assert x == x[..|x| - 1] + [x[|x| - 1]];
    assert y[l] in multiset(y);
  }

  lemma SameLengths(t: real, docs: seq<Doc>, x: seq<Cluster>, xs: seq<Doc>)
    requires ListsSome(t, docs, x, xs)
    ensures |x| == |xs|
  {
  }

  lemma WithoutLast<T>(s: seq<T>)
    requires s != []
    ensures Without(s, |s| - 1) == s[..|s| - 1]
  {
  }

  lemma ListedClusters(t: real, docs: seq<Doc>, x: seq<Cluster>, xs: seq<Doc>, k: nat, y: seq<Cluster>, ys: seq<Doc>,
                       l: nat)
    requires ListsSome(t, docs, x, xs) && ListsSome(t, docs, y, ys) && k < |xs| && l < |ys|
    requires Joined(t, docs, xs[k], ys[l])
    ensures |x| == |xs| && |y| == |ys| && x[k] == y[l]
  {
    hide Joined, IsClusterOf, Separate;
    ClusterOfIsUnique(t, docs, x[k], y[l], xs[k], ys[l]);
  }

  lemma MatchOf(t: real, docs: seq<Doc>, xs: seq<Doc>, ys: seq<Doc>, k: nat) returns (l: nat)
    requires Matched(t, docs, xs, ys) && k < |xs|
    ensures l < |ys| && Joined(t, docs, ys[l], xs[k])
  {
    assert xs[k] in xs;
    l :| l < |ys| && Joined(t, docs, ys[l], xs[k]);
  }

  lemma SeparateInit(t: real, docs: seq<Doc>, xs: seq<Doc>)
    requires Separate(t, docs, xs) && xs != []
    ensures Separate(t, docs, xs[..|xs| - 1])
  {
  }

  lemma {:induction false} SomeSummand<T>(f: T -> nat, s: seq<T>) returns (x: T)
    requires SumOf(f, s) > 0
    ensures x in s && f(x) > 0
  {
    if f(s[0]) > 0 {
      x := s[0];
    } else {
      x := SomeSummand(f, s[1..]);
    }
  }

  lemma {:induction false} SummandsFit<T>(f: T -> nat, s: seq<T>, x: T)
    requires x in s
    ensures SumOf(f, s) >= f(x)
  {
    if s[0] != x {
      SummandsFit(f, s[1..], x);
    }
  }

  /** An id of a cluster is that of a document of its component. */
  lemma IdHasDoc(t: real, docs: seq<Doc>, c: Cluster, d: Doc, id: string) returns (x: Doc)
    requires IsClusterOf(t, docs, c, d) && id in c
    ensures x in docs && x.id == id && Joined(t, docs, d, x)
  {
    assert multiset(c)[id] > 0;
    x := SomeSummand((x: Doc) => if Joined(t, docs, d, x) && x.id == id then 1 else 0, docs);
  }

  /** The component of a listed cluster is of two or more documents. */
  lemma {:induction false} ClusterSize(t: real, docs: seq<Doc>, c: Cluster, d: Doc)
    requires forall id :: multiset(c)[id] == IdCount(t, docs, d, id)
    ensures |c| == ComponentSize(t, docs, d)
  {
    var ids := JoinedIds(t, docs, d, docs);
    forall id
      ensures multiset(c)[id] == multiset(ids)[id]
    {
      JoinedIdsCount(t, docs, d, docs, id);
    }
    assert multiset(c) == multiset(ids);
    assert |multiset(c)| == |c| && |multiset(ids)| == |ids|;
  }

  /** The ids of those of the given documents that are in d's component. */
  ghost function JoinedIds(t: real, docs: seq<Doc>, d: Doc, some: seq<Doc>): (ids: seq<string>)
    ensures |ids| == SumOf((x: Doc) => if Joined(t, docs, d, x) then 1 else 0, some)
  {
    if some == [] then []
    else (if Joined(t, docs, d, some[0]) then [some[0].id] else []) + JoinedIds(t, docs, d, some[1..])
  }

  lemma {:induction false} JoinedIdsCount(t: real, docs: seq<Doc>, d: Doc, some: seq<Doc>, id: string)
    ensures multiset(JoinedIds(t, docs, d, some))[id]
         == SumOf((x: Doc) => if Joined(t, docs, d, x) && x.id == id then 1 else 0, some)
  {
    hide Joined;
    if some != [] {
      JoinedIdsCount(t, docs, d, some[1..], id);
    }
  }

  /** Any two reports hold the same clusters, each equally often. */
  lemma ReportsShareClusters(t: real, docs: seq<Doc>, r: seq<Cluster>, s: seq<Cluster>)
    requires IsReport(t, docs, r) && IsReport(t, docs, s)
    ensures multiset(r) == multiset(s)
  {
    hide Joined, ComponentSize, ListsSome, Matched;
    var x, xs :| Lists(t, docs, x, xs) && multiset(r) == multiset(x);
    var y, ys :| Lists(t, docs, y, ys) && multiset(s) == multiset(y);
    HeadsAreBig(t, docs, x, xs, y, ys);
    HeadsAreBig(t, docs, y, ys, x, xs);
    MatchedListsAgree(t, docs, x, xs, y, ys);
  }

  lemma HeadsAreBig(t: real, docs: seq<Doc>, x: seq<Cluster>, xs: seq<Doc>, y: seq<Cluster>, ys: seq<Doc>)
    requires Lists(t, docs, x, xs) && Lists(t, docs, y, ys)
    ensures Matched(t, docs, xs, ys)
  {
    hide Joined, IdCount, ComponentSize, Separate;
    forall d | d in xs
      ensures ListedFor(t, docs, ys, d)
    {
      var k :| 0 <= k < |xs| && xs[k] == d;
      ClusterSize(t, docs, x[k], d);
    }
  }

  /** No two different clusters of the report have the same size and first id. */
  ghost predicate NoTies(clusters: seq<Cluster>) {
    AntisymmetricOn(ClusterLeq(), clusters)
  }

  lemma SwappedIsReport(t: real, docs: seq<Doc>, r: seq<Cluster>, i: nat, j: nat)
    requires IsReport(t, docs, r) && i < |r| && j < |r|
    requires ClusterLeq()(r[i], r[j]) && ClusterLeq()(r[j], r[i])
    ensures IsReport(t, docs, r[i := r[j]][j := r[i]])
  {
    hide ClusterLeq, Lists;
    ClusterOrder();
    var s, le := r[i := r[j]][j := r[i]], ClusterLeq();
    assert multiset(s) == multiset(r);
    forall p, q | 0 <= p < q < |s|
      ensures le(s[p], s[q])
    {
      assert le(s[p], r[p]) && le(r[p], r[q]) && le(r[q], s[q]);
    }
  }

  /** There is only one report, so that neither document order nor hash-map order can show,
      exactly when no two different clusters tie. */
  lemma ReportUniqueIff(t: real, docs: seq<Doc>, r: seq<Cluster>)
    requires IsReport(t, docs, r)
    ensures NoTies(r) <==> forall s :: IsReport(t, docs, s) ==> s == r
  {
    hide ClusterLeq, Lists;
    if NoTies(r) {
      forall s | IsReport(t, docs, s)
        ensures s == r
      {
        ReportsShareClusters(t, docs, r, s);
        SortedUnique(ClusterLeq(), r, s);
      }
    } else {
      var a, b :| a in r && b in r && ClusterLeq()(a, b) && ClusterLeq()(b, a) && a != b;
      var i :| 0 <= i < |r| && r[i] == a;
      var j :| 0 <= j < |r| && r[j] == b;
      SwappedIsReport(t, docs, r, i, j);
      assert r[i := r[j]][j := r[i]][i] == b;
    }
  }

  /** Distinct ids leave no room for ties. */
  lemma DistinctIdsNoTies(t: real, docs: seq<Doc>, r: seq<Cluster>)
    requires DistinctDocs(docs) && IsReport(t, docs, r)
    ensures NoTies(r)
  {
    hide Joined, IdCount, IsClusterOf;
    var x, xs :| Lists(t, docs, x, xs) && multiset(r) == multiset(x);
    SameMultisetSameMembers(r, x);
    forall a, b | a in r && b in r && ClusterLeq()(a, b) && ClusterLeq()(b, a)
      ensures a == b
    {
      var k :| 0 <= k < |x| && x[k] == a;
      var l :| 0 <= l < |x| && x[l] == b;
      LexOrder(ClusterKey(a), ClusterKey(b), ClusterKey(a));
      CodesInjective(a[0], b[0]);
      SharedIdSameHead(t, docs, x, xs, k, l);
    }
  }

  lemma SharedIdSameHead(t: real, docs: seq<Doc>, x: seq<Cluster>, xs: seq<Doc>, k: nat, l: nat)
    requires DistinctDocs(docs) && ListsSome(t, docs, x, xs) && k < |x| && l < |x| && x[k][0] == x[l][0]
    ensures k == l
  {
    hide Joined, IsClusterOf;
    var d := IdHasDoc(t, docs, x[k], xs[k], x[k][0]);
    var e := IdHasDoc(t, docs, x[l], xs[l], x[l][0]);
    assert d == e by {
      var i :| 0 <= i < |docs| && docs[i] == d;
      var j :| 0 <= j < |docs| && docs[j] == e;
      assert i == j;
    }
    JoinedSymmetric(t, docs, xs[l], d);
    JoinedTransitive(t, docs, xs[k], d, xs[l]);
  }

  /** The order of the documents has no part in what a report is. */
  lemma ReportIgnoresOrder(t: real, docs: seq<Doc>, docs': seq<Doc>, r: seq<Cluster>)
    requires multiset(docs) == multiset(docs') && IsReport(t, docs, r)
    ensures IsReport(t, docs', r)
  {
    hide *;
    var x, xs := Listing(t, docs, r);
    ListingIgnoresOrder(t, docs, docs', x, xs);
    ListingMakesReport(t, docs', r, x, xs);
  }

  lemma Listing(t: real, docs: seq<Doc>, r: seq<Cluster>) returns (x: seq<Cluster>, xs: seq<Doc>)
    requires IsReport(t, docs, r)
    ensures Lists(t, docs, x, xs) && multiset(r) == multiset(x) && SortedBy(ClusterLeq(), r)
  {
    x, xs :| Lists(t, docs, x, xs) && multiset(r) == multiset(x);
  }

  lemma ListingMakesReport(t: real, docs: seq<Doc>, r: seq<Cluster>, x: seq<Cluster>, xs: seq<Doc>)
    requires Lists(t, docs, x, xs) && multiset(r) == multiset(x) && SortedBy(ClusterLeq(), r)
    ensures IsReport(t, docs, r)
  {
  }

  lemma ListingIgnoresOrder(t: real, docs: seq<Doc>, docs': seq<Doc>, x: seq<Cluster>, xs: seq<Doc>)
    requires multiset(docs) == multiset(docs') && Lists(t, docs, x, xs)
    ensures Lists(t, docs', x, xs)
  {
    hide ClusterLeq, ComponentSize, IdCount, IdLeq, Joined, SortedBy;
    SameMultisetSameMembers(docs, docs');
    assert DocSet(docs) == DocSet(docs');
    forall d, e
      ensures Joined(t, docs, d, e) == Joined(t, docs', d, e)
    {
      SameSetSameJoins(t, docs, docs', d, e);
    }
    forall d
      ensures ComponentSize(t, docs, d) == ComponentSize(t, docs', d)
      ensures forall id :: IdCount(t, docs, d, id) == IdCount(t, docs', d, id)
    {
      forall id
        ensures IdCount(t, docs, d, id) == IdCount(t, docs', d, id)
      {
        CountsIgnoreOrder(t, docs, docs', d, id);
      }
      CountsIgnoreOrder(t, docs, docs', d, "");
    }
    forall d | d in docs' && ComponentSize(t, docs', d) >= 2
      ensures ListedFor(t, docs', xs, d)
    {
      assert ListedFor(t, docs, xs, d);
    }
  }

  lemma SameSetSameJoins(t: real, docs: seq<Doc>, docs': seq<Doc>, d: Doc, e: Doc)
    requires DocSet(docs) == DocSet(docs')
    ensures Joined(t, docs, d, e) == Joined(t, docs', d, e)
  {
    hide Connected;
  }

  lemma CountsIgnoreOrder(t: real, docs: seq<Doc>, docs': seq<Doc>, d: Doc, id: string)
    requires multiset(docs) == multiset(docs') && DocSet(docs) == DocSet(docs')
    ensures ComponentSize(t, docs, d) == ComponentSize(t, docs', d)
    ensures IdCount(t, docs, d, id) == IdCount(t, docs', d, id)
  {
    hide Connected;
    var size: Doc -> nat := x => if Joined(t, docs, d, x) then 1 else 0;
    var size': Doc -> nat := x => if Joined(t, docs', d, x) then 1 else 0;
    var count: Doc -> nat := x => if Joined(t, docs, d, x) && x.id == id then 1 else 0;
    var count': Doc -> nat := x => if Joined(t, docs', d, x) && x.id == id then 1 else 0;
    SumOfPermutation(size, docs, docs');
    SumOfEqual(size, size', docs');
    SumOfPermutation(count, docs, docs');
    SumOfEqual(count, count', docs');
  }

  lemma SameSignatureOnly(t: real, docs: seq<Doc>, x: Doc, y: Doc)
    requires forall p, q :: p in docs && q in docs && Linked(t, p, q) ==> p.signature == q.signature
    requires x in docs && y in docs
    ensures Joined(t, docs, x, y) <==> x.signature == y.signature
  {
    if Joined(t, docs, x, y) {
      ConnectedKeepsLabel(Linked, t, DocSet(docs), (p: Doc) => if p.signature == x.signature then 1 else 0, x, y);
    }
    if x.signature == y.signature {
      ConnectedByLink(Linked, t, DocSet(docs), x, y);
    }
  }

  lemma SumOfFour<T>(f: T -> nat, a: T, b: T, c: T, d: T)
    ensures SumOf(f, [a, b, c, d]) == f(a) + f(b) + f(c) + f(d)
  {
    SumOfOne(f, d);
    assert [c, d][1..] == [d] && SumOf(f, [c, d]) == f(c) + SumOf(f, [d]);
    assert [b, c, d][1..] == [c, d] && SumOf(f, [b, c, d]) == f(b) + SumOf(f, [c, d]);
    assert [a, b, c, d][1..] == [b, c, d];
  }

  /** Such a tie: two pairs of near duplicates, the first document of each under the same id. */
  function TiedDocs(): seq<Doc> {
    [Doc("a", Zeros()), Doc("b", Zeros()), Doc("a", Ones()), Doc("c", Ones())]
  }

  function Ones(): MinHash {
    seq(128, _ => 1)
  }

  lemma TiedPairs(t: real, k: nat, c: Cluster)
    requires (k == 0 && c == ["a", "b"]) || (k == 2 && c == ["a", "c"])
    ensures IsClusterOf(t, TiedDocs(), c, TiedDocs()[k])
    ensures forall l :: 0 <= l < 4 ==> (Joined(t, TiedDocs(), TiedDocs()[k], TiedDocs()[l]) <==> k <= l < k + 2)
  {
    hide Joined, Linked, IdCount, IdLeq;
    var docs := TiedDocs();
    TiedLinks(t);
    assert Zeros()[0] != Ones()[0];
    forall l | 0 <= l < 4
      ensures Joined(t, docs, docs[k], docs[l]) <==> k <= l < k + 2
    {
      SameSignatureOnly(t, docs, docs[k], docs[l]);
    }
    forall id
      ensures multiset(c)[id] == IdCount(t, docs, docs[k], id)
    {
      TiedCounts(t, k, c, id);
    }
    TiedIdsSorted();
  }

  lemma TiedCounts(t: real, k: nat, c: Cluster, id: string)
    requires (k == 0 && c == ["a", "b"]) || (k == 2 && c == ["a", "c"])
    requires forall l :: 0 <= l < 4 ==> (Joined(t, TiedDocs(), TiedDocs()[k], TiedDocs()[l]) <==> k <= l < k + 2)
    ensures multiset(c)[id] == IdCount(t, TiedDocs(), TiedDocs()[k], id)
  {
    hide Joined, Zeros, Ones;
    var docs := TiedDocs();
    SumOfFour((x: Doc) => if Joined(t, docs, docs[k], x) && x.id == id then 1 else 0,
              docs[0], docs[1], docs[2], docs[3]);
    assert multiset(c) == multiset{c[0], c[1]};
  }

  lemma TiedIdsSorted()
    ensures SortedBy(IdLeq(), ["a", "b"]) && SortedBy(IdLeq(), ["a", "c"])
  {
    assert Codes("a")[0] < Codes("b")[0] && Codes("a")[0] < Codes("c")[0];
  }

  lemma TiedLinks(t: real)
    ensures forall p, q :: p in TiedDocs() && q in TiedDocs() && Linked(t, p, q) ==> p.signature == q.signature
  {
    forall k: nat | k < LSH_BANDS
      ensures Band(Zeros(), k) != Band(Ones(), k)
    {
      assert Band(Zeros(), k)[0] != Band(Ones(), k)[0];
    }
    forall p, q | p in TiedDocs() && q in TiedDocs() && p.signature != q.signature
      ensures !ShareBand(p.signature, q.signature)
    {
      assert p.signature == Zeros() || p.signature == Ones();
      assert q.signature == Zeros() || q.signature == Ones();
    }
  }

  lemma TiedListing(t: real)
    ensures Lists(t, TiedDocs(), [["a", "b"], ["a", "c"]], [TiedDocs()[0], TiedDocs()[2]])
  {
    hide Joined, IsClusterOf, IdLeq;
    var docs, xs := TiedDocs(), [TiedDocs()[0], TiedDocs()[2]];
    TiedPairs(t, 0, ["a", "b"]);
    TiedPairs(t, 2, ["a", "c"]);
    forall d | d in docs
      ensures ListedFor(t, docs, xs, d)
    {
      var l :| 0 <= l < 4 && docs[l] == d;
      assert Joined(t, docs, xs[if l < 2 then 0 else 1], d);
    }
  }

  /** Both orders of the two clusters are reports of those documents. */
  lemma TiesLeaveOrderOpen(t: real)
    ensures IsReport(t, TiedDocs(), [["a", "b"], ["a", "c"]]) && IsReport(t, TiedDocs(), [["a", "c"], ["a", "b"]])
  {
    hide Lists, LexLess, Codes, IsReport;
    var docs, x, xs := TiedDocs(), [["a", "b"], ["a", "c"]], [TiedDocs()[0], TiedDocs()[2]];
    var y := [["a", "c"], ["a", "b"]];
    TiedListing(t);
    assert multiset(x) == multiset(y);
    ListingMakesReport(t, docs, x, x, xs);
    ListingMakesReport(t, docs, y, x, xs);
  }
}
