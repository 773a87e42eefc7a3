/** Near-duplicate clustering as the source runs it: collapse equal signatures, bucket by
    band, verify candidate pairs, union, expand. Hash maps are iterated in arbitrary order. */
module Dedup {
  import opened Basics
  import opened Ordering
  import opened Banding
  import opened UnionFind
  import opened DedupSpec
  import opened DedupMeaning

  /** A distinct signature and the documents that have it, in document order. */
  datatype Rep = Rep(signature: MinHash, members: seq<nat>)

  type BucketMap = map<(nat, seq<u64>), seq<nat>>

  datatype DedupResult = DedupResult(documents: nat, nearDuplicateDocuments: nat, clusters: seq<Cluster>)

  // ------------------------------------------------------------------------
  // Collapse
  // ------------------------------------------------------------------------

  ghost predicate GoodRep(docs: seq<Doc>, n: nat, rep: Rep)
    requires n <= |docs|
  {
    && rep.members != [] && Ascending(rep.members)
    && forall m :: m in rep.members ==> m < n && docs[m].signature == rep.signature
  }

  ghost predicate Covered(reps: seq<Rep>, i: nat) {
    exists k :: 0 <= k < |reps| && i in reps[k].members
  }

  /** The representatives of the first n documents. */
  ghost predicate Collapsed(docs: seq<Doc>, n: nat, reps: seq<Rep>)
    requires n <= |docs|
  {
    && (forall k :: 0 <= k < |reps| ==> GoodRep(docs, n, reps[k]))
    && (forall k, l :: 0 <= k < l < |reps| ==> reps[k].signature != reps[l].signature)
    && (forall i: nat :: i < n ==> Covered(reps, i))
  }

  method Collapse(docs: seq<Doc>) returns (reps: seq<Rep>)
    ensures Collapsed(docs, |docs|, reps)
  {
    reps := [];
    var sigToRep: map<MinHash, nat> := map[];
    for i := 0 to |docs|
      invariant Collapsed(docs, i, reps)
      invariant forall s :: s in sigToRep ==> sigToRep[s] < |reps| && reps[sigToRep[s]].signature == s
      invariant forall k :: 0 <= k < |reps| ==> reps[k].signature in sigToRep
    {
      var s := docs[i].signature;
      if s in sigToRep {
        var r := sigToRep[s];
        ExtendRep(docs, i, reps, r);
        reps := reps[r := Rep(reps[r].signature, reps[r].members + [i])];
      } else {
        NewRep(docs, i, reps);
        sigToRep := sigToRep[s := |reps|];
        reps := reps + [Rep(s, [i])];
      }
    }
  }

  lemma ExtendRep(docs: seq<Doc>, i: nat, reps: seq<Rep>, r: nat)
    requires i < |docs| && Collapsed(docs, i, reps) && r < |reps| && reps[r].signature == docs[i].signature
    ensures Collapsed(docs, i + 1, reps[r := Rep(reps[r].signature, reps[r].members + [i])])
  {
    var next := reps[r := Rep(reps[r].signature, reps[r].members + [i])];
    assert GoodRep(docs, i, reps[r]);
    forall a | 0 <= a < |reps[r].members|
      ensures reps[r].members[a] < i
    {
      assert reps[r].members[a] in reps[r].members;
    }
    forall k | 0 <= k < |next|
      ensures GoodRep(docs, i + 1, next[k])
    {
      assert GoodRep(docs, i, reps[k]);
    }
    forall j: nat | j < i + 1
      ensures Covered(next, j)
    {
      if j < i {
        assert Covered(reps, j);
        var k :| 0 <= k < |reps| && j in reps[k].members;
        assert j in next[k].members;
      } else {
        assert j in next[r].members;
      }
    }
  }

  lemma NewRep(docs: seq<Doc>, i: nat, reps: seq<Rep>)
    requires i < |docs| && Collapsed(docs, i, reps)
    requires forall k :: 0 <= k < |reps| ==> reps[k].signature != docs[i].signature
    ensures Collapsed(docs, i + 1, reps + [Rep(docs[i].signature, [i])])
  {
    var next := reps + [Rep(docs[i].signature, [i])];
    forall k | 0 <= k < |next|
      ensures GoodRep(docs, i + 1, next[k])
    {
      if k < |reps| {
        assert GoodRep(docs, i, reps[k]) && next[k] == reps[k];
      } else {
        assert next[k] == Rep(docs[i].signature, [i]);
      }
      assert Ascending(next[k].members);
    }
    forall j: nat | j < i + 1
      ensures Covered(next, j)
    {
      if j < i {
        assert Covered(reps, j);
        var k :| 0 <= k < |reps| && j in reps[k].members;
        assert j in next[k].members;
      } else {
        assert i in next[|reps|].members;
      }
    }
  }

  // ------------------------------------------------------------------------
  // Buckets and candidate pairs
  // ------------------------------------------------------------------------

  ghost predicate GoodBucket(reps: seq<Rep>, n: nat, key: (nat, seq<u64>), members: seq<nat>)
    requires n <= |reps|
  {
    && Ascending(members) && key.0 < LSH_BANDS
    && forall i :: 0 <= i < |members| ==> members[i] < n && Band(reps[members[i]].signature, key.0) == key.1
  }

  ghost predicate InBucket(reps: seq<Rep>, buckets: BucketMap, r: nat, b: nat)
    requires r < |reps| && b < LSH_BANDS
  {
    var key := (b, Band(reps[r].signature, b));
    key in buckets && r in buckets[key]
  }

  /** Every representative is in the bucket of each of its bands, and in no other. */
  ghost predicate Bucketed(reps: seq<Rep>, n: nat, buckets: BucketMap)
    requires n <= |reps|
  {
    && (forall key :: key in buckets ==> GoodBucket(reps, n, key, buckets[key]))
    && (forall r: nat, b: nat :: r < n && b < LSH_BANDS ==> InBucket(reps, buckets, r, b))
  }

  /** How many representatives may be in the buckets of a band, when r is at band b. */
  ghost function Seen(r: nat, b: nat, band: nat): nat {
    if band < b then r + 1 else r
  }

  /** Representative r has been pushed into its buckets of bands below b. */
  ghost predicate BucketedUpTo(reps: seq<Rep>, r: nat, b: nat, buckets: BucketMap)
    requires r < |reps|
  {
    && (forall key :: key in buckets ==> GoodBucket(reps, Seen(r, b, key.0), key, buckets[key]))
    && (forall q: nat, c: nat :: c < LSH_BANDS && (q < r || (q == r && c < b)) ==> InBucket(reps, buckets, q, c))
  }

  lemma PushIntoBucket(reps: seq<Rep>, r: nat, b: nat, buckets: BucketMap, next: BucketMap)
    requires r < |reps| && b < LSH_BANDS && BucketedUpTo(reps, r, b, buckets)
    requires var key := (b, Band(reps[r].signature, b));
             next == buckets[key := (if key in buckets then buckets[key] else []) + [r]]
    ensures BucketedUpTo(reps, r, b + 1, next)
  {
    forall q: nat, c: nat | c < LSH_BANDS && (q < r || (q == r && c < b + 1))
      ensures InBucket(reps, next, q, c)
    {
      if q < r || c < b {
        assert InBucket(reps, buckets, q, c);
      }
    }
    var key := (b, Band(reps[r].signature, b));
    forall k: (nat, seq<u64>) | k in next
      ensures GoodBucket(reps, Seen(r, b + 1, k.0), k, next[k])
    {
      if k != key {
        assert GoodBucket(reps, Seen(r, b, k.0), k, buckets[k]);
      } else {
        PushedBucketIsGood(reps, r, key, if key in buckets then buckets[key] else []);
      }
    }
  }

  lemma PushedBucketIsGood(reps: seq<Rep>, r: nat, key: (nat, seq<u64>), members: seq<nat>)
    requires r < |reps| && key.0 < LSH_BANDS && key.1 == Band(reps[r].signature, key.0)
    requires GoodBucket(reps, r, key, members)
    ensures GoodBucket(reps, r + 1, key, members + [r])
  {
  }

  method BuildBuckets(reps: seq<Rep>) returns (buckets: BucketMap)
    ensures Bucketed(reps, |reps|, buckets)
  {
    buckets := map[];
    for r := 0 to |reps|
      invariant Bucketed(reps, r, buckets)
    {
      for b := 0 to LSH_BANDS
        invariant BucketedUpTo(reps, r, b, buckets)
      {
        var key := (b, Band(reps[r].signature, b));
        var next := buckets[key := (if key in buckets then buckets[key] else []) + [r]];
        PushIntoBucket(reps, r, b, buckets, next);
        buckets := next;
      }
    }
  }

  /** Exactly the pairs with a common band, smaller index first. */
  ghost predicate CandidatePairs(reps: seq<Rep>, pairs: set<(nat, nat)>) {
    forall i: nat, j: nat :: (i, j) in pairs <==>
      i < j < |reps| && ShareBand(reps[i].signature, reps[j].signature)
  }

  method CollectCandidates(reps: seq<Rep>, buckets: BucketMap) returns (pairs: set<(nat, nat)>)
    requires Bucketed(reps, |reps|, buckets)
    ensures CandidatePairs(reps, pairs)
  {
    pairs := {};
    var keys := buckets.Keys;
    while keys != {}
      invariant keys <= buckets.Keys
      invariant forall i: nat, j: nat :: (i, j) in pairs ==>
                    i < j < |reps| && ShareBand(reps[i].signature, reps[j].signature)
      invariant forall key, i: nat, j: nat ::
                  key in buckets.Keys - keys && i in buckets[key] && j in buckets[key] && i < j ==> (i, j) in pairs
      decreases keys
    {
      var key :| key in keys;
      keys := keys - {key};
      assert GoodBucket(reps, |reps|, key, buckets[key]);
      var found := PairsOf(buckets[key]);
      pairs := pairs + found;
    }
    forall i: nat, j: nat | i < j < |reps| && ShareBand(reps[i].signature, reps[j].signature)
      ensures (i, j) in pairs
    {
      var b: nat :| b < LSH_BANDS && Band(reps[i].signature, b) == Band(reps[j].signature, b);
      assert InBucket(reps, buckets, i, b) && InBucket(reps, buckets, j, b);
    }
  }

  /** The two inner loops over one bucket. */
  method PairsOf(members: seq<nat>) returns (pairs: set<(nat, nat)>)
    requires Ascending(members)
    ensures forall i: nat, j: nat :: (i, j) in pairs <==> i < j && i in members && j in members
  {
    pairs := {};
    for a := 0 to |members|
      invariant forall i: nat, j: nat :: (i, j) in pairs <==> i < j && i in members[..a] && j in members
    {
      for b := a + 1 to |members|
        invariant forall i: nat, j: nat :: (i, j) in pairs <==>
                    i < j && ((i in members[..a] && j in members) || (i == members[a] && j in members[a + 1..b]))
      {
        var i, j := members[a], members[b];
        assert i < j;
        pairs := pairs + {if i < j then (i, j) else (j, i)};
        assert members[a + 1..b + 1] == members[a + 1..b] + [j];
      }
      assert members[..a + 1] == members[..a] + [members[a]];
      forall j: nat | j in members && members[a] < j
        ensures j in members[a + 1..]
      {
        var k :| 0 <= k < |members| && members[k] == j;
        assert k > a;
        assert members[a + 1..][k - a - 1] == j;
      }
      assert members[a + 1..|members|] == members[a + 1..];
    }
    assert members[..|members|] == members;
  }

  // ------------------------------------------------------------------------
  // Union
  // ------------------------------------------------------------------------

  /** A document of a representative. */
  ghost function First(docs: seq<Doc>, reps: seq<Rep>, k: nat): (d: Doc)
    requires Collapsed(docs, |docs|, reps) && k < |reps|
    ensures d in docs && d.signature == reps[k].signature
  {
    assert GoodRep(docs, |docs|, reps[k]);
    assert reps[k].members[0] in reps[k].members;
    docs[reps[k].members[0]]
  }

  /** Representatives with the same root are connected as documents. */
  ghost predicate RootsSound(docs: seq<Doc>, t: real, reps: seq<Rep>, parent: seq<nat>, size: seq<nat>)
    requires Collapsed(docs, |docs|, reps) && Forest(parent, size) && |parent| == |reps|
  {
    forall x: nat, y: nat :: x < |reps| && y < |reps| && Root(parent, size, x) == Root(parent, size, y) ==>
      Connected(Linked, t, DocSet(docs), First(docs, reps, x), First(docs, reps, y))
  }

  /** The pairs that pass the Jaccard check, among the given ones, share a root. */
  ghost predicate PairsJoined(t: real, reps: seq<Rep>, pairs: set<(nat, nat)>, parent: seq<nat>, size: seq<nat>)
    requires Forest(parent, size) && |parent| == |reps|
  {
    forall i: nat, j: nat :: (i, j) in pairs && i < |reps| && j < |reps| ==>
      JaccardEstimate(reps[i].signature, reps[j].signature) >= t ==> Root(parent, size, i) == Root(parent, size, j)
  }

  lemma MergeIsSound(docs: seq<Doc>, t: real, reps: seq<Rep>, p: seq<nat>, s: seq<nat>, q: seq<nat>, s': seq<nat>,
                     i: nat, j: nat)
    requires Collapsed(docs, |docs|, reps) && Forest(p, s) && Forest(q, s') && |p| == |q| == |reps|
    requires i < |reps| && j < |reps| && Merged(p, s, q, s', i, j)
    requires RootsSound(docs, t, reps, p, s)
    requires ShareBand(reps[i].signature, reps[j].signature)
    requires JaccardEstimate(reps[i].signature, reps[j].signature) >= t
    ensures RootsSound(docs, t, reps, q, s')
  {
    var V := DocSet(docs);
    var di, dj := First(docs, reps, i), First(docs, reps, j);
    ConnectedByLink(Linked, t, V, di, dj);
    LinkedSymmetric(t, di, dj);
    ConnectedByLink(Linked, t, V, dj, di);
    forall x: nat, y: nat | x < |reps| && y < |reps| && Root(q, s', x) == Root(q, s', y)
      ensures Connected(Linked, t, V, First(docs, reps, x), First(docs, reps, y))
    {
      var dx, dy := First(docs, reps, x), First(docs, reps, y);
      var rx, ry, ri, rj := Root(p, s, x), Root(p, s, y), Root(p, s, i), Root(p, s, j);
      if rx != ry {
        if rx == ri {
          ConnectedTransitive(Linked, t, V, dx, di, dj);
          ConnectedTransitive(Linked, t, V, dx, dj, dy);
        } else {
          ConnectedTransitive(Linked, t, V, dx, dj, di);
          ConnectedTransitive(Linked, t, V, dx, di, dy);
        }
      }
    }
  }

  method UnionCandidates(docs: seq<Doc>, t: real, reps: seq<Rep>, pairs: set<(nat, nat)>) returns (uf: UnionFind)
    requires Collapsed(docs, |docs|, reps) && CandidatePairs(reps, pairs)
    ensures fresh(uf) && uf.Valid() && |uf.parent| == |reps|
    ensures RootsSound(docs, t, reps, uf.parent, uf.size) && PairsJoined(t, reps, pairs, uf.parent, uf.size)
  {
    uf := new UnionFind(|reps|);
    InitialRootsSound(docs, t, reps, uf.parent, uf.size);
    var todo := pairs;
    while todo != {}
      invariant todo <= pairs && fresh(uf) && uf.Valid() && |uf.parent| == |reps|
      invariant RootsSound(docs, t, reps, uf.parent, uf.size)
      invariant PairsJoined(t, reps, pairs - todo, uf.parent, uf.size)
      decreases todo
    {
      ghost var done := pairs - todo;
      var pair :| pair in todo;
      todo := todo - {pair};
      assert pairs - todo == done + {pair};
      var (i, j) := pair;
      if JaccardEstimate(reps[i].signature, reps[j].signature) >= t {
        ghost var p, s := uf.parent, uf.size;
        uf.Union(i, j);
        MergeIsSound(docs, t, reps, p, s, uf.parent, uf.size, i, j);
        MergeJoins(t, reps, done, p, s, uf.parent, uf.size, i, j);
      }
    }
    assert pairs - todo == pairs;
  }

  lemma MergeJoins(t: real, reps: seq<Rep>, done: set<(nat, nat)>, p: seq<nat>, s: seq<nat>, q: seq<nat>,
                   s': seq<nat>, i: nat, j: nat)
    requires Forest(p, s) && Forest(q, s') && |p| == |q| == |reps|
    requires i < |reps| && j < |reps| && Merged(p, s, q, s', i, j) && PairsJoined(t, reps, done, p, s)
    ensures PairsJoined(t, reps, done + {(i, j)}, q, s')
  {
  }

  lemma InitialRootsSound(docs: seq<Doc>, t: real, reps: seq<Rep>, parent: seq<nat>, size: seq<nat>)
    requires Collapsed(docs, |docs|, reps) && Forest(parent, size) && |parent| == |reps|
    requires forall x :: 0 <= x < |parent| ==> Root(parent, size, x) == x
    ensures RootsSound(docs, t, reps, parent, size)
  {
    forall x: nat | x < |reps|
      ensures Connected(Linked, t, DocSet(docs), First(docs, reps, x), First(docs, reps, x))
    {
      ConnectedToItself(Linked, t, DocSet(docs), First(docs, reps, x));
    }
  }

  // ------------------------------------------------------------------------
  // Roots are components
  // ------------------------------------------------------------------------

  /** The representative of a document's signature. */
  ghost function RepOf(docs: seq<Doc>, reps: seq<Rep>, d: Doc): (k: nat)
    requires Collapsed(docs, |docs|, reps) && d in docs
    ensures k < |reps| && reps[k].signature == d.signature
  {
    var i :| 0 <= i < |docs| && docs[i] == d;
    assert Covered(reps, i);
    var k :| 0 <= k < |reps| && i in reps[k].members;
    assert GoodRep(docs, |docs|, reps[k]);
    k
  }

  lemma RepOfIsUnique(docs: seq<Doc>, reps: seq<Rep>, d: Doc, k: nat)
    requires Collapsed(docs, |docs|, reps) && d in docs && k < |reps| && reps[k].signature == d.signature
    ensures RepOf(docs, reps, d) == k
  {
  }

  /** Two documents are connected exactly when their representatives have the same root. */
  lemma RootsAreComponents(docs: seq<Doc>, t: real, reps: seq<Rep>, pairs: set<(nat, nat)>,
                           parent: seq<nat>, size: seq<nat>, d: Doc, e: Doc)
    requires Collapsed(docs, |docs|, reps) && CandidatePairs(reps, pairs) && d in docs && e in docs
    requires Forest(parent, size) && |parent| == |reps|
    requires RootsSound(docs, t, reps, parent, size) && PairsJoined(t, reps, pairs, parent, size)
    ensures Connected(Linked, t, DocSet(docs), d, e) <==>
            Root(parent, size, RepOf(docs, reps, d)) == Root(parent, size, RepOf(docs, reps, e))
  {
    var V := DocSet(docs);
    var mark := x => if x in docs then Root(parent, size, RepOf(docs, reps, x)) else 0;
    if Connected(Linked, t, V, d, e) {
      forall x, y | x in V && y in V && Linked(t, x, y)
        ensures mark(x) == mark(y)
      {
        LinkedDocsShareRoot(t, docs, reps, pairs, parent, size, x, y);
      }
      ConnectedKeepsLabel(Linked, t, V, mark, d, e);
    }
    if mark(d) == mark(e) {
      var dk, ek := First(docs, reps, RepOf(docs, reps, d)), First(docs, reps, RepOf(docs, reps, e));
      ConnectedByLink(Linked, t, V, d, dk);
      ConnectedByLink(Linked, t, V, ek, e);
      ConnectedTransitive(Linked, t, V, d, dk, ek);
      ConnectedTransitive(Linked, t, V, d, ek, e);
    }
  }

  lemma LinkedDocsShareRoot(t: real, docs: seq<Doc>, reps: seq<Rep>, pairs: set<(nat, nat)>,
                            parent: seq<nat>, size: seq<nat>, x: Doc, y: Doc)
    requires Collapsed(docs, |docs|, reps) && CandidatePairs(reps, pairs) && x in docs && y in docs
    requires Forest(parent, size) && |parent| == |reps| && PairsJoined(t, reps, pairs, parent, size)
    requires Linked(t, x, y)
    ensures Root(parent, size, RepOf(docs, reps, x)) == Root(parent, size, RepOf(docs, reps, y))
  {
    var i, j := RepOf(docs, reps, x), RepOf(docs, reps, y);
    if i < j {
      assert (i, j) in pairs;
    } else if j < i {
      LinkedSymmetric(t, x, y);
      assert (j, i) in pairs;
    }
  }

  // ------------------------------------------------------------------------
  // Expand
  // ------------------------------------------------------------------------

  ghost predicate GoodGroup(parent: seq<nat>, size: seq<nat>, n: nat, root: nat, group: seq<nat>)
    requires Forest(parent, size) && n <= |parent|
  {
    Ascending(group) && group != []
    && forall i :: 0 <= i < |group| ==> group[i] < n && Root(parent, size, group[i]) == root
  }

  /** Each root's group holds exactly the representatives below n with that root. */
  ghost predicate Grouped(parent: seq<nat>, size: seq<nat>, n: nat, groups: map<nat, seq<nat>>)
    requires Forest(parent, size) && n <= |parent|
  {
    GroupsGood(parent, size, n, groups) && AllGrouped(parent, size, n, groups)
  }

  ghost predicate GroupsGood(parent: seq<nat>, size: seq<nat>, n: nat, groups: map<nat, seq<nat>>)
    requires Forest(parent, size) && n <= |parent|
  {
    forall root :: root in groups ==> GoodGroup(parent, size, n, root, groups[root])
  }

  ghost predicate AllGrouped(parent: seq<nat>, size: seq<nat>, n: nat, groups: map<nat, seq<nat>>)
    requires Forest(parent, size) && n <= |parent|
  {
    forall r: nat :: r < n ==> InGroup(groups, Root(parent, size, r), r)
  }

  ghost predicate InGroup(groups: map<nat, seq<nat>>, root: nat, r: nat) {
    root in groups && r in groups[root]
  }

  method GroupByRoot(uf: UnionFind) returns (groups: map<nat, seq<nat>>)
    requires uf.Valid()
    modifies uf
    ensures Forest(old(uf.parent), old(uf.size))
    ensures Grouped(old(uf.parent), old(uf.size), |old(uf.parent)|, groups)
  {
    hide Root, GoodGroup, InGroup, Sized;
    ghost var p, s := uf.parent, uf.size;
    groups := map[];
    for r := 0 to |uf.parent|
      invariant uf.Valid() && uf.size == s && |uf.parent| == |p| && SameRoots(p, uf.parent, s)
      invariant Grouped(p, s, r, groups)
    {
      ghost var q := uf.parent;
      var root, _ := uf.Find(r);
      assert Root(p, s, r) == Root(q, s, r) == root;
      var group := (if root in groups then groups[root] else []) + [r];
      AddToGroup(p, s, r, groups, root, group);
      groups := groups[root := group];
    }
  }

  lemma AddToGroup(p: seq<nat>, s: seq<nat>, r: nat, groups: map<nat, seq<nat>>, root: nat, group: seq<nat>)
    requires Forest(p, s) && r < |p| && Grouped(p, s, r, groups) && Root(p, s, r) == root
    requires group == (if root in groups then groups[root] else []) + [r]
    ensures Grouped(p, s, r + 1, groups[root := group])
  {
    GroupsStayGood(p, s, r, groups, root, group);
    NextIsGrouped(p, s, r, groups, root, group);
  }

  lemma NextIsGrouped(p: seq<nat>, s: seq<nat>, r: nat, groups: map<nat, seq<nat>>, root: nat, group: seq<nat>)
    requires Forest(p, s) && r < |p| && AllGrouped(p, s, r, groups) && Root(p, s, r) == root
    requires group == (if root in groups then groups[root] else []) + [r]
    ensures AllGrouped(p, s, r + 1, groups[root := group])
  {
    forall q: nat | q < r + 1
      ensures InGroup(groups[root := group], Root(p, s, q), q)
    {
      if q < r {
        assert InGroup(groups, Root(p, s, q), q);
      }
    }
  }

  lemma GroupsStayGood(p: seq<nat>, s: seq<nat>, r: nat, groups: map<nat, seq<nat>>, root: nat, group: seq<nat>)
    requires Forest(p, s) && r < |p| && Root(p, s, r) == root && GroupsGood(p, s, r, groups)
    requires group == (if root in groups then groups[root] else []) + [r]
    ensures GroupsGood(p, s, r + 1, groups[root := group])
  {
    GrownGroupIsGood(p, s, r, root, if root in groups then groups[root] else []);
    forall k | k in groups && k != root
      ensures GoodGroup(p, s, r + 1, k, groups[k])
    {
      KeptGroupIsGood(p, s, r, k, groups[k]);
    }
  }

  lemma KeptGroupIsGood(p: seq<nat>, s: seq<nat>, r: nat, root: nat, group: seq<nat>)
    requires Forest(p, s) && r < |p| && GoodGroup(p, s, r, root, group)
    ensures GoodGroup(p, s, r + 1, root, group)
  {
  }

  lemma GrownGroupIsGood(p: seq<nat>, s: seq<nat>, r: nat, root: nat, group: seq<nat>)
    requires Forest(p, s) && r < |p| && Root(p, s, r) == root
    requires group == [] || GoodGroup(p, s, r, root, group)
    ensures GoodGroup(p, s, r + 1, root, group + [r])
  {
  }

  /** The positions of a group's documents, representative by representative. */
  function GroupMembers(reps: seq<Rep>, group: seq<nat>): seq<nat>
    requires forall i :: 0 <= i < |group| ==> group[i] < |reps|
  {
    if group == [] then [] else reps[group[0]].members + GroupMembers(reps, group[1..])
  }

  function IdsAt(docs: seq<Doc>, members: seq<nat>): (ids: seq<string>)
    requires forall i :: 0 <= i < |members| ==> members[i] < |docs|
    ensures |ids| == |members|
  {
    seq(|members|, i requires 0 <= i < |members| => docs[members[i]].id)
  }

  /** A group's members are its representatives' documents, each once. */
  lemma {:induction false} GroupMembersSpec(docs: seq<Doc>, reps: seq<Rep>, group: seq<nat>)
    requires Collapsed(docs, |docs|, reps)
    requires Ascending(group) && forall i :: 0 <= i < |group| ==> group[i] < |reps|
    ensures NoRepeats(GroupMembers(reps, group))
    ensures forall m :: m in GroupMembers(reps, group) <==> exists i :: 0 <= i < |group| && m in reps[group[i]].members
  {
    if group != [] {
      var r, rest := group[0], group[1..];
      var head, tail := reps[r].members, GroupMembers(reps, rest);
      GroupMembersSpec(docs, reps, rest);
      assert GoodRep(docs, |docs|, reps[r]);
      forall m
        ensures m in head + tail <==> exists i :: 0 <= i < |group| && m in reps[group[i]].members
      {
        if m in tail {
          var i :| 0 <= i < |rest| && m in reps[rest[i]].members;
          assert group[i + 1] == rest[i];
        }
        if i :| 0 <= i < |group| && m in reps[group[i]].members {
          assert i > 0 ==> rest[i - 1] == group[i];
        }
      }
      forall m | m in head
        ensures m !in tail
      {
        forall i | 0 <= i < |rest|
          ensures m !in reps[rest[i]].members
        {
          assert GoodRep(docs, |docs|, reps[rest[i]]) && r < rest[i];
        }
      }
      ConcatNoRepeats(head, tail);
    }
  }

  lemma ConcatNoRepeats<T>(a: seq<T>, b: seq<T>)
    requires NoRepeats(a) && NoRepeats(b) && forall x :: !(x in a && x in b)
    ensures NoRepeats(a + b)
  {
    var c := a + b;
    forall i, j | 0 <= i < j < |c|
      ensures c[i] != c[j]
    {
      if i < |a| && j >= |a| {
        assert c[i] in a && c[j] in b;
      }
    }
  }

  // ------------------------------------------------------------------------
  // A group is a component
  // ------------------------------------------------------------------------

  ghost predicate JoinedIffSameRoot(docs: seq<Doc>, t: real, reps: seq<Rep>, p: seq<nat>, s: seq<nat>, d: Doc, e: Doc)
    requires Collapsed(docs, |docs|, reps) && Forest(p, s) && |p| == |reps| && d in docs && e in docs
  {
    Joined(t, docs, d, e) <==> Root(p, s, RepOf(docs, reps, d)) == Root(p, s, RepOf(docs, reps, e))
  }

  /** The facts about representatives and the forest that expansion relies on. */
  ghost predicate Prepared(docs: seq<Doc>, t: real, reps: seq<Rep>, p: seq<nat>, s: seq<nat>) {
    && Collapsed(docs, |docs|, reps)
    && Forest(p, s) && |p| == |reps|
    && forall d, e :: d in docs && e in docs ==> JoinedIffSameRoot(docs, t, reps, p, s, d, e)
  }

  ghost function RootOf(docs: seq<Doc>, reps: seq<Rep>, p: seq<nat>, s: seq<nat>, d: Doc): nat
    requires Collapsed(docs, |docs|, reps) && Forest(p, s) && |p| == |reps| && d in docs
  {
    Root(p, s, RepOf(docs, reps, d))
  }

  /** The listed positions are, once each, those below n of the documents that qualify. */
  ghost predicate AreMembers(docs: seq<Doc>, n: nat, members: seq<nat>, qualifies: Doc -> bool)
    requires n <= |docs|
  {
    NoRepeats(members) && forall m: nat :: m in members <==> m < n && qualifies(docs[m])
  }

  lemma MembersInBounds(docs: seq<Doc>, n: nat, members: seq<nat>, qualifies: Doc -> bool)
    requires n <= |docs| && AreMembers(docs, n, members, qualifies)
    ensures forall i :: 0 <= i < |members| ==> members[i] < n
  {
    forall i | 0 <= i < |members|
      ensures members[i] < n
    {
      assert members[i] in members;
    }
  }

  /** A representative's documents all have its root, and no others do. */
  lemma MemberRoot(docs: seq<Doc>, reps: seq<Rep>, p: seq<nat>, s: seq<nat>, k: nat, m: nat)
    requires Collapsed(docs, |docs|, reps) && Forest(p, s) && |p| == |reps| && k < |reps| && m in reps[k].members
    ensures m < |docs| && RepOf(docs, reps, docs[m]) == k && RootOf(docs, reps, p, s, docs[m]) == Root(p, s, k)
  {
    hide Root, Forest, Connected;
    assert GoodRep(docs, |docs|, reps[k]);
    RepOfIsUnique(docs, reps, docs[m], k);
  }

  lemma RepHasMember(docs: seq<Doc>, reps: seq<Rep>, m: nat)
    requires Collapsed(docs, |docs|, reps) && m < |docs|
    ensures m in reps[RepOf(docs, reps, docs[m])].members
  {
    assert Covered(reps, m);
    var k :| 0 <= k < |reps| && m in reps[k].members;
    assert GoodRep(docs, |docs|, reps[k]);
    RepOfIsUnique(docs, reps, docs[m], k);
  }

  /** A group holds exactly the positions of the documents with its root. */
  lemma GroupIsComponent(docs: seq<Doc>, reps: seq<Rep>, p: seq<nat>, s: seq<nat>, groups: map<nat, seq<nat>>,
                         root: nat)
    requires Collapsed(docs, |docs|, reps) && Forest(p, s) && |p| == |reps|
    requires Grouped(p, s, |reps|, groups) && root in groups
    ensures forall i :: 0 <= i < |groups[root]| ==> groups[root][i] < |reps|
    ensures AreMembers(docs, |docs|, GroupMembers(reps, groups[root]),
                       (x: Doc) => x in docs && RootOf(docs, reps, p, s, x) == root)
  {
    hide Root, Forest, Collapsed, RootOf, GroupMembers, NoRepeats;
    var group := groups[root];
    assert GoodGroup(p, s, |reps|, root, group);
    GroupMembersSpec(docs, reps, group);
    forall m: nat
      ensures m in GroupMembers(reps, group) <==> m < |docs| && RootOf(docs, reps, p, s, docs[m]) == root
    {
      if m in GroupMembers(reps, group) {
        var i :| 0 <= i < |group| && m in reps[group[i]].members;
        MemberRoot(docs, reps, p, s, group[i], m);
      }
      if m < |docs| && RootOf(docs, reps, p, s, docs[m]) == root {
        RepHasMember(docs, reps, m);
        var k := RepOf(docs, reps, docs[m]);
        MemberRoot(docs, reps, p, s, k, m);
        assert InGroup(groups, root, k);
        var i :| 0 <= i < |group| && group[i] == k;
      }
    }
  }

  /** Positions listed once each count the documents that qualify. */
  lemma {:induction false} IdsCount(docs: seq<Doc>, n: nat, members: seq<nat>, qualifies: Doc -> bool, id: string)
    requires n <= |docs| && AreMembers(docs, n, members, qualifies)
    ensures forall i :: 0 <= i < |members| ==> members[i] < |docs|
    ensures multiset(IdsAt(docs, members))[id] ==
            SumOf((x: Doc) => if qualifies(x) && x.id == id then 1 else 0, docs[..n])
    ensures |members| == SumOf((x: Doc) => if qualifies(x) then 1 else 0, docs[..n])
    decreases n
  {
    hide AreMembers, SumOf, IdsAt;
    var f: Doc -> nat, g: Doc -> nat :=
      (x: Doc) => if qualifies(x) && x.id == id then 1 else 0, (x: Doc) => if qualifies(x) then 1 else 0;
    MembersInBounds(docs, n, members, qualifies);
    if n == 0 {
      NothingCounts(docs, members, f, g, id);
    } else {
      var last := docs[n - 1];
      SumToLast(docs, n, f);
      SumToLast(docs, n, g);
      LastMember(docs, n, members, qualifies);
      if qualifies(last) {
        var j :| 0 <= j < |members| && members[j] == n - 1;
        IdsCount(docs, n - 1, Without(members, j), qualifies, id);
        WithoutMember(docs, members, j);
      } else {
        IdsCount(docs, n - 1, members, qualifies, id);
      }
    }
  }

  lemma NothingCounts(docs: seq<Doc>, members: seq<nat>, f: Doc -> nat, g: Doc -> nat, id: string)
    requires forall i :: 0 <= i < |members| ==> members[i] < 0
    ensures members == [] && multiset(IdsAt(docs, members))[id] == 0
    ensures SumOf(f, docs[..0]) == 0 && SumOf(g, docs[..0]) == 0
  {
  }

  lemma SumToLast(docs: seq<Doc>, n: nat, f: Doc -> nat)
    requires 0 < n <= |docs|
    ensures SumOf(f, docs[..n]) == SumOf(f, docs[..n - 1]) + f(docs[n - 1])
  {
    assert docs[..n] == docs[..n - 1] + [docs[n - 1]];
    SumOfAppend(f, docs[..n - 1], [docs[n - 1]]);
    SumOfOne(f, docs[n - 1]);
  }

  /** The last position is a member or not; without it the members are those below it. */
  lemma LastMember(docs: seq<Doc>, n: nat, members: seq<nat>, qualifies: Doc -> bool)
    requires 0 < n <= |docs| && AreMembers(docs, n, members, qualifies)
    ensures qualifies(docs[n - 1]) <==> n - 1 in members
    ensures !qualifies(docs[n - 1]) ==> AreMembers(docs, n - 1, members, qualifies)
    ensures forall j :: 0 <= j < |members| && members[j] == n - 1 ==>
                AreMembers(docs, n - 1, Without(members, j), qualifies)
  {
    var last: nat := n - 1;
    assert qualifies(docs[last]) <==> last in members;
    forall j | 0 <= j < |members| && members[j] == n - 1
      ensures AreMembers(docs, n - 1, Without(members, j), qualifies)
    {
      var rest := Without(members, j);
      forall m: nat
        ensures m in rest <==> m in members && m != n - 1
      {
        if m in members && m != n - 1 {
          var i :| 0 <= i < |members| && members[i] == m;
          assert rest[if i < j then i else i - 1] == m;
        }
      }
    }
  }

  lemma WithoutMember(docs: seq<Doc>, members: seq<nat>, j: nat)
    requires j < |members| && forall i :: 0 <= i < |members| ==> members[i] < |docs|
    ensures forall i :: 0 <= i < |Without(members, j)| ==> Without(members, j)[i] < |docs|
    ensures multiset(IdsAt(docs, members)) == multiset(IdsAt(docs, Without(members, j))) + multiset{docs[members[j]].id}
  {
    var rest, ids := Without(members, j), IdsAt(docs, members);
    WithoutMultiset(ids, j);
    assert IdsAt(docs, rest) == Without(ids, j);
    assert ids[j] in multiset(ids);
  }

  /** Sorted, the ids of the positions of a component are its cluster. */
  lemma ClusterOfMembers(docs: seq<Doc>, t: real, members: seq<nat>, d: Doc, qualifies: Doc -> bool)
    requires AreMembers(docs, |docs|, members, qualifies)
    requires forall x :: x in docs ==> (qualifies(x) <==> Joined(t, docs, d, x))
    ensures forall i :: 0 <= i < |members| ==> members[i] < |docs|
    ensures IsClusterOf(t, docs, SortBy(IdLeq(), IdsAt(docs, members)), d)
    ensures |members| == ComponentSize(t, docs, d)
  {
    hide Joined, AreMembers, IdLeq;
    MembersInBounds(docs, |docs|, members, qualifies);
    var ids := IdsAt(docs, members);
    forall id
      ensures multiset(ids)[id] == IdCount(t, docs, d, id)
    {
      MembersCount(docs, t, members, d, qualifies, id);
    }
    MembersCount(docs, t, members, d, qualifies, "");
    IdOrder();
    SortBySorts(IdLeq(), ids);
    SortByPermutes(IdLeq(), ids);
  }

  lemma MembersCount(docs: seq<Doc>, t: real, members: seq<nat>, d: Doc, qualifies: Doc -> bool, id: string)
    requires AreMembers(docs, |docs|, members, qualifies)
    requires forall x :: x in docs ==> (qualifies(x) <==> Joined(t, docs, d, x))
    ensures forall i :: 0 <= i < |members| ==> members[i] < |docs|
    ensures multiset(IdsAt(docs, members))[id] == IdCount(t, docs, d, id)
    ensures |members| == ComponentSize(t, docs, d)
  {
    hide Joined, AreMembers, SumOf, IdsAt;
    IdsCount(docs, |docs|, members, qualifies, id);
    assert docs[..|docs|] == docs;
    SumOfEqual((x: Doc) => if qualifies(x) && x.id == id then 1 else 0,
               (x: Doc) => if Joined(t, docs, d, x) && x.id == id then 1 else 0, docs);
    SumOfEqual((x: Doc) => if qualifies(x) then 1 else 0, (x: Doc) => if Joined(t, docs, d, x) then 1 else 0, docs);
  }

  /** The sorted ids of a group are the cluster of each of its documents. */
  lemma GroupIsCluster(docs: seq<Doc>, t: real, reps: seq<Rep>, p: seq<nat>, s: seq<nat>,
                       groups: map<nat, seq<nat>>, root: nat, d: Doc)
    requires Prepared(docs, t, reps, p, s) && Grouped(p, s, |reps|, groups) && root in groups
    requires d in docs && RootOf(docs, reps, p, s, d) == root
    ensures forall i :: 0 <= i < |groups[root]| ==> groups[root][i] < |reps|
    ensures var members := GroupMembers(reps, groups[root]);
            && (forall i :: 0 <= i < |members| ==> members[i] < |docs|)
            && IsClusterOf(t, docs, SortBy(IdLeq(), IdsAt(docs, members)), d)
            && |members| == ComponentSize(t, docs, d)
  {
    hide Root, Forest, Collapsed, GroupMembers, AreMembers, Grouped, IsClusterOf, ComponentSize, Joined;
    GroupIsComponent(docs, reps, p, s, groups, root);
    var qualifies: Doc -> bool := x => x in docs && RootOf(docs, reps, p, s, x) == root;
    forall x | x in docs
      ensures qualifies(x) <==> Joined(t, docs, d, x)
    {
      assert JoinedIffSameRoot(docs, t, reps, p, s, d, x);
    }
    ClusterOfMembers(docs, t, GroupMembers(reps, groups[root]), d, qualifies);
  }

  // ------------------------------------------------------------------------
  // Expand
  // ------------------------------------------------------------------------

  /** One cluster, beside a document of its own, per expanded group of two or more documents. */
  ghost predicate Expanded(docs: seq<Doc>, t: real, reps: seq<Rep>, p: seq<nat>, s: seq<nat>,
                           roots: set<nat>, clusters: seq<Cluster>, heads: seq<Doc>)
    requires Prepared(docs, t, reps, p, s)
  {
    && ListsSome(t, docs, clusters, heads)
    && (forall k :: 0 <= k < |heads| ==> RootOf(docs, reps, p, s, heads[k]) in roots)
    && forall d :: d in docs && ComponentSize(t, docs, d) >= 2 && RootOf(docs, reps, p, s, d) in roots ==>
         ListedFor(t, docs, heads, d)
  }

  lemma GroupHasDoc(docs: seq<Doc>, t: real, reps: seq<Rep>, p: seq<nat>, s: seq<nat>,
                    groups: map<nat, seq<nat>>, root: nat) returns (d: Doc)
    requires Prepared(docs, t, reps, p, s) && Grouped(p, s, |reps|, groups) && root in groups
    ensures d in docs && RootOf(docs, reps, p, s, d) == root
  {
    assert GoodGroup(p, s, |reps|, root, groups[root]);
    var k := groups[root][0];
    d := First(docs, reps, k);
    RepOfIsUnique(docs, reps, d, k);
  }

  /** Expanding one more group adds its cluster, if it has two documents. */
  lemma NewExpansion(docs: seq<Doc>, t: real, reps: seq<Rep>, p: seq<nat>, s: seq<nat>,
                     done: set<nat>, root: nat, clusters: seq<Cluster>, heads: seq<Doc>, c: Cluster, d: Doc)
    requires Prepared(docs, t, reps, p, s) && Expanded(docs, t, reps, p, s, done, clusters, heads) && root !in done
    requires d in docs && RootOf(docs, reps, p, s, d) == root
    requires IsClusterOf(t, docs, c, d) && |c| == ComponentSize(t, docs, d)
    ensures |c| >= 2 ==> Expanded(docs, t, reps, p, s, done + {root}, clusters + [c], heads + [d])
    ensures |c| < 2 ==> Expanded(docs, t, reps, p, s, done + {root}, clusters, heads)
  {
    hide Joined, IsClusterOf, ComponentSize, Collapsed, Forest, RootOf, JoinedIffSameRoot, ListedFor, Separate;
    var next := if |c| >= 2 then heads + [d] else heads;
    NewHeadSeparate(docs, t, reps, p, s, heads, d);
    forall e | e in docs && ComponentSize(t, docs, e) >= 2 && RootOf(docs, reps, p, s, e) in done + {root}
      ensures ListedFor(t, docs, next, e)
    {
      if RootOf(docs, reps, p, s, e) in done {
        StillListed(t, docs, heads, d, e);
      } else {
        JoinedBySameRoot(docs, t, reps, p, s, d, e);
        SameComponentSize(t, docs, d, e);
        NewlyListed(t, docs, heads, d, e);
      }
    }
  }

  lemma JoinedBySameRoot(docs: seq<Doc>, t: real, reps: seq<Rep>, p: seq<nat>, s: seq<nat>, d: Doc, e: Doc)
    requires Prepared(docs, t, reps, p, s) && d in docs && e in docs
    ensures Joined(t, docs, d, e) <==> RootOf(docs, reps, p, s, d) == RootOf(docs, reps, p, s, e)
  {
    hide Joined, Collapsed, Forest, Root;
    assert JoinedIffSameRoot(docs, t, reps, p, s, d, e);
  }

  lemma NewHeadSeparate(docs: seq<Doc>, t: real, reps: seq<Rep>, p: seq<nat>, s: seq<nat>, heads: seq<Doc>, d: Doc)
    requires Prepared(docs, t, reps, p, s) && d in docs && Separate(t, docs, heads)
    requires forall k :: 0 <= k < |heads| ==>
               heads[k] in docs && RootOf(docs, reps, p, s, heads[k]) != RootOf(docs, reps, p, s, d)
    ensures Separate(t, docs, heads + [d])
  {
    hide Joined, Collapsed, Forest, RootOf, JoinedIffSameRoot;
    forall k | 0 <= k < |heads|
      ensures !Joined(t, docs, heads[k], d) && !Joined(t, docs, d, heads[k])
    {
      JoinedBySameRoot(docs, t, reps, p, s, heads[k], d);
      JoinedBySameRoot(docs, t, reps, p, s, d, heads[k]);
    }
  }

  lemma StillListed(t: real, docs: seq<Doc>, heads: seq<Doc>, d: Doc, e: Doc)
    requires ListedFor(t, docs, heads, e)
    ensures ListedFor(t, docs, heads + [d], e)
  {
    hide Joined;
    var k :| 0 <= k < |heads| && Joined(t, docs, heads[k], e);
    assert (heads + [d])[k] == heads[k];
  }

  lemma NewlyListed(t: real, docs: seq<Doc>, heads: seq<Doc>, d: Doc, e: Doc)
    requires Joined(t, docs, d, e)
    ensures ListedFor(t, docs, heads + [d], e)
  {
    hide Joined;
    assert (heads + [d])[|heads|] == d;
  }

  lemma NothingExpanded(docs: seq<Doc>, t: real, reps: seq<Rep>, p: seq<nat>, s: seq<nat>)
    requires Prepared(docs, t, reps, p, s)
    ensures Expanded(docs, t, reps, p, s, {}, [], [])
  {
  }

  method Expand(docs: seq<Doc>, ghost t: real, reps: seq<Rep>, ghost p: seq<nat>, ghost s: seq<nat>,
                groups: map<nat, seq<nat>>) returns (clusters: seq<Cluster>)
    requires Prepared(docs, t, reps, p, s) && Grouped(p, s, |reps|, groups)
    requires forall r, i :: r in groups && 0 <= i < |groups[r]| ==> groups[r][i] < |reps|
    ensures exists heads :: Expanded(docs, t, reps, p, s, groups.Keys, clusters, heads)
  {
    hide Expanded, Prepared, Grouped, IsClusterOf, ComponentSize, RootOf, GroupMembers, GoodGroup;
    clusters := [];
    ghost var heads: seq<Doc> := [];
    NothingExpanded(docs, t, reps, p, s);
    var todo := groups.Keys;
    assert groups.Keys - todo == {};
    while todo != {}
      invariant todo <= groups.Keys
      invariant Expanded(docs, t, reps, p, s, groups.Keys - todo, clusters, heads)
      decreases todo
    {
      var root :| root in todo;
      ghost var done := groups.Keys - todo;
      todo := todo - {root};
      assert groups.Keys - todo == done + {root};
      ghost var d := GroupHasDoc(docs, t, reps, p, s, groups, root);
      GroupIsCluster(docs, t, reps, p, s, groups, root, d);
      var members := GroupMembers(reps, groups[root]);
      var ids := IdsAt(docs, members);
      NewExpansion(docs, t, reps, p, s, done, root, clusters, heads, SortBy(IdLeq(), ids), d);
      if |ids| >= 2 {
        clusters, heads := clusters + [SortBy(IdLeq(), ids)], heads + [d];
      }
    }
    assert groups.Keys - todo == groups.Keys;
  }

  lemma GroupsInBounds(p: seq<nat>, s: seq<nat>, n: nat, groups: map<nat, seq<nat>>)
    requires Forest(p, s) && n <= |p| && Grouped(p, s, n, groups)
    ensures forall root, i :: root in groups && 0 <= i < |groups[root]| ==> groups[root][i] < n
  {
    forall root, i | root in groups && 0 <= i < |groups[root]|
      ensures groups[root][i] < n
    {
      assert GoodGroup(p, s, n, root, groups[root]);
    }
  }

  /** With every group expanded the clusters, sorted, are a report. */
  lemma ExpandedIsReport(docs: seq<Doc>, t: real, reps: seq<Rep>, p: seq<nat>, s: seq<nat>,
                         groups: map<nat, seq<nat>>, clusters: seq<Cluster>, heads: seq<Doc>)
    requires Prepared(docs, t, reps, p, s) && Grouped(p, s, |reps|, groups)
    requires Expanded(docs, t, reps, p, s, groups.Keys, clusters, heads)
    ensures IsReport(t, docs, SortBy(ClusterLeq(), clusters))
  {
    hide ClusterLeq, ListsSome, ComponentSize, ListedFor;
    forall d | d in docs && ComponentSize(t, docs, d) >= 2
      ensures ListedFor(t, docs, heads, d)
    {
      assert InGroup(groups, RootOf(docs, reps, p, s, d), RepOf(docs, reps, d));
      assert RootOf(docs, reps, p, s, d) in groups.Keys;
    }
    assert Lists(t, docs, clusters, heads);
    ClusterOrder();
    SortBySorts(ClusterLeq(), clusters);
    SortByPermutes(ClusterLeq(), clusters);
    ListingMakesReport(t, docs, SortBy(ClusterLeq(), clusters), clusters, heads);
  }

  // ------------------------------------------------------------------------
  // The whole run
  // ------------------------------------------------------------------------

  function TotalSize(clusters: seq<Cluster>): nat {
    if clusters == [] then 0 else |clusters[0]| + TotalSize(clusters[1..])
  }

  /** `dedup`: a report of the documents' components. */
  method Dedup(docs: seq<Doc>, t: real) returns (r: DedupResult)
    ensures r.documents == |docs| && r.nearDuplicateDocuments == TotalSize(r.clusters)
    ensures IsReport(t, docs, r.clusters) && Describes(t, docs, r.clusters)
    ensures DistinctDocs(docs) ==> forall s :: IsReport(t, docs, s) ==> s == r.clusters
  {
    hide IsReport, Describes, Prepared, Grouped, Expanded;
    var reps := Collapse(docs);
    var buckets := BuildBuckets(reps);
    var pairs := CollectCandidates(reps, buckets);
    var uf := UnionCandidates(docs, t, reps, pairs);
    ghost var p, s := uf.parent, uf.size;
    RepsPrepared(docs, t, reps, pairs, p, s);
    var groups := GroupByRoot(uf);
    GroupsInBounds(p, s, |reps|, groups);
    var clusters := Expand(docs, t, reps, p, s, groups);
    ghost var heads :| Expanded(docs, t, reps, p, s, groups.Keys, clusters, heads);
    ExpandedIsReport(docs, t, reps, p, s, groups, clusters, heads);
    clusters := SortBy(ClusterLeq(), clusters);
    var total := 0;
    for i := 0 to |clusters|
      invariant total + TotalSize(clusters[i..]) == TotalSize(clusters)
    {
      assert clusters[i..][1..] == clusters[i + 1..];
      total := total + |clusters[i]|;
    }
    r := DedupResult(|docs|, total, clusters);
    ReportDescribes(t, docs, clusters);
    if DistinctDocs(docs) {
      DistinctIdsNoTies(t, docs, clusters);
      ReportUniqueIff(t, docs, clusters);
    }
  }

  lemma RepsPrepared(docs: seq<Doc>, t: real, reps: seq<Rep>, pairs: set<(nat, nat)>, p: seq<nat>, s: seq<nat>)
    requires Collapsed(docs, |docs|, reps) && CandidatePairs(reps, pairs) && Forest(p, s) && |p| == |reps|
    requires RootsSound(docs, t, reps, p, s) && PairsJoined(t, reps, pairs, p, s)
    ensures Prepared(docs, t, reps, p, s)
  {
    forall d, e | d in docs && e in docs
      ensures JoinedIffSameRoot(docs, t, reps, p, s, d, e)
    {
      RootsAreComponents(docs, t, reps, pairs, p, s, d, e);
    }
  }

  /** The clusters do not depend on the order of the documents, nor does their order unless two
      different ones tie. */
  lemma DedupIgnoresOrder(t: real, docs: seq<Doc>, docs': seq<Doc>, r: seq<Cluster>, r': seq<Cluster>)
    requires multiset(docs) == multiset(docs') && IsReport(t, docs, r) && IsReport(t, docs', r')
    ensures multiset(r) == multiset(r')
    ensures NoTies(r) || DistinctDocs(docs) ==> r == r'
  {
    ReportIgnoresOrder(t, docs', docs, r');
    ReportsShareClusters(t, docs, r, r');
    if DistinctDocs(docs) {
      DistinctIdsNoTies(t, docs, r);
    }
    ReportUniqueIff(t, docs, r);
  }
}
