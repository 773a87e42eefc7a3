/** The three in-place helpers that give manifest rows their positions: input ordinals,
    occurrence indices, and the canonical `(document_id, occurrence_index)` order. */
module ManifestOrder {
  import opened Basics
  import opened Ordering
  import opened Manifest

  // ------------------------------------------------------------------------
  // Specifications
  // ------------------------------------------------------------------------

  ghost function Numbered(entries: seq<ManifestEntry>): (r: seq<ManifestEntry>)
    ensures |r| == |entries|
  {
    seq(|entries|, i requires 0 <= i < |entries| => entries[i].(inputOrdinal := i))
  }

  /** How many rows before i have the same document id. */
  ghost function Rank(entries: seq<ManifestEntry>, i: nat): nat
    requires i < |entries|
  {
    multiset(DocumentIds(entries)[..i])[entries[i].documentId]
  }

  ghost function Ranked(entries: seq<ManifestEntry>): (r: seq<ManifestEntry>)
    ensures |r| == |entries|
    ensures forall i :: 0 <= i < |r| ==> r[i] == entries[i].(occurrenceIndex := Rank(entries, i))
    ensures DocumentIds(r) == DocumentIds(entries)
  {
    seq(|entries|, i requires 0 <= i < |entries| => entries[i].(occurrenceIndex := Rank(entries, i)))
  }

  predicate CanonicalLeq(a: ManifestEntry, b: ManifestEntry) {
    LexLess(a.documentId, b.documentId)
    || (a.documentId == b.documentId && a.occurrenceIndex <= b.occurrenceIndex)
  }

  lemma CanonicalOrder()
    ensures TotalPreorder(CanonicalLeq)
  {
    forall a, b, c
      ensures CanonicalLeq(a, b) || CanonicalLeq(b, a)
      ensures CanonicalLeq(a, b) && CanonicalLeq(b, c) ==> CanonicalLeq(a, c)
    {
      LexTrichotomy(a.documentId, b.documentId);
      if LexLess(a.documentId, b.documentId) && LexLess(b.documentId, c.documentId) {
        LexTransitive(a.documentId, b.documentId, c.documentId);
      }
    }
  }

  // ------------------------------------------------------------------------
  // The helpers
  // ------------------------------------------------------------------------

  method AssignInputOrdinals(entries: array<ManifestEntry>)
    modifies entries
    ensures entries[..] == Numbered(old(entries[..]))
  {
    for i := 0 to entries.Length
      invariant forall j :: 0 <= j < i ==> entries[j] == old(entries[j]).(inputOrdinal := j)
      invariant forall j :: i <= j < entries.Length ==> entries[j] == old(entries[j])
    {
      entries[i] := entries[i].(inputOrdinal := i);
    }
  }

  function Counter(counters: map<Digest, nat>, d: Digest): nat {
    if d in counters then counters[d] else 0
  }

  /** One pass with a counter per digest. */
  method AssignOccurrenceIndices(entries: array<ManifestEntry>)
    modifies entries
    ensures entries[..] == Ranked(old(entries[..]))
  {
    hide Counting, Counter, Rank, DocumentIds;
    ghost var before := entries[..];
    var counters: map<Digest, nat> := map[];
    NothingCounted(before);
    for i := 0 to entries.Length
      invariant Counting(before, i, counters)
      invariant forall j :: 0 <= j < i ==> entries[j] == before[j].(occurrenceIndex := Rank(before, j))
      invariant forall j :: i <= j < entries.Length ==> entries[j] == before[j]
    {
      var d := entries[i].documentId;
      var counter := Counter(counters, d);
      CountOneMore(before, i, counters);
      entries[i] := entries[i].(occurrenceIndex := counter);
      counters := counters[d := counter + 1];
    }
  }

  /** The counters hold how often each digest occurs in the first i rows. */
  ghost predicate Counting(rows: seq<ManifestEntry>, i: nat, counters: map<Digest, nat>)
    requires i <= |rows|
  {
    forall d :: Counter(counters, d) == multiset(DocumentIds(rows)[..i])[d]
  }

  lemma NothingCounted(rows: seq<ManifestEntry>)
    ensures Counting(rows, 0, map[])
  {
  }

  lemma CountOneMore(rows: seq<ManifestEntry>, i: nat, counters: map<Digest, nat>)
    requires i < |rows| && Counting(rows, i, counters)
    ensures var d := rows[i].documentId;
            && Counter(counters, d) == Rank(rows, i)
            && Counting(rows, i + 1, counters[d := Counter(counters, d) + 1])
  {
    var ids := DocumentIds(rows);
    assert ids[..i + 1] == ids[..i] + [ids[i]];
  }

  method SortEntries(entries: array<ManifestEntry>)
    modifies entries
    ensures entries[..] == SortBy(CanonicalLeq, old(entries[..]))
  {
    var sorted := SortBy(CanonicalLeq, entries[..]);
    for i := 0 to entries.Length
      invariant entries[..i] == sorted[..i]
    {
      entries[i] := sorted[i];
    }
  }

  // ------------------------------------------------------------------------
  // The sealed order can be audited
  // ------------------------------------------------------------------------

  function IsBefore(d: Digest, k: nat): (f: ManifestEntry -> nat)
    ensures forall e :: f(e) == if e.documentId == d && e.occurrenceIndex < k then 1 else 0
  {
    (e: ManifestEntry) => if e.documentId == d && e.occurrenceIndex < k then 1 else 0
  }

  function IsAbout(d: Digest): ManifestEntry -> nat {
    (e: ManifestEntry) => if e.documentId == d then 1 else 0
  }

  lemma {:induction false} CountOfDigest(d: Digest, entries: seq<ManifestEntry>)
    ensures SumOf(IsAbout(d), entries) == multiset(DocumentIds(entries))[d]
  {
    if entries == [] {
      assert DocumentIds(entries) == [];
    } else {
      CountOfDigest(d, entries[1..]);
      assert DocumentIds(entries) == [entries[0].documentId] + DocumentIds(entries[1..]);
    }
  }

  lemma RankOfPrefix(entries: seq<ManifestEntry>, n: nat, i: nat)
    requires i < n <= |entries|
    ensures Rank(entries[..n], i) == Rank(entries, i)
  {
    assert DocumentIds(entries[..n])[..i] == DocumentIds(entries)[..i];
  }

  lemma RankOfLast(entries: seq<ManifestEntry>, n: nat)
    requires n + 1 == |entries|
    ensures Rank(entries, n) == multiset(DocumentIds(entries[..n]))[entries[n].documentId]
  {
    assert DocumentIds(entries)[..n] == DocumentIds(entries[..n]);
  }

  lemma RankedInit(entries: seq<ManifestEntry>, n: nat)
    requires n + 1 == |entries|
    ensures Ranked(entries)[..n] == Ranked(entries[..n])
  {
    var left, right := Ranked(entries)[..n], Ranked(entries[..n]);
    forall i | 0 <= i < n
      ensures left[i] == right[i]
    {
      RankOfPrefix(entries, n, i);
    }
  }

  lemma SumOfRankedSplits(entries: seq<ManifestEntry>, n: nat, f: ManifestEntry -> nat)
    requires n + 1 == |entries|
    ensures SumOf(f, Ranked(entries)) == SumOf(f, Ranked(entries[..n])) + f(Ranked(entries)[n])
  {
    RankedInit(entries, n);
    var last := Ranked(entries)[n];
    assert Ranked(entries) == Ranked(entries)[..n] + [last];
    SumOfAppend(f, Ranked(entries)[..n], [last]);
    SumOfOne(f, last);
  }

  lemma CountSplitsAtEnd(entries: seq<ManifestEntry>, n: nat, d: Digest)
    requires n + 1 == |entries|
    ensures multiset(DocumentIds(entries))[d]
         == multiset(DocumentIds(entries[..n]))[d] + if entries[n].documentId == d then 1 else 0
  {
    assert DocumentIds(entries) == DocumentIds(entries[..n]) + [entries[n].documentId];
  }

  /** Among ranked rows of one digest there is exactly one of each rank. */
  lemma {:induction false} RanksFillUp(entries: seq<ManifestEntry>, d: Digest, k: nat)
    ensures SumOf(IsBefore(d, k), Ranked(entries)) == Min(k, multiset(DocumentIds(entries))[d])
  {
    if entries == [] {
      assert DocumentIds(entries) == [];
    } else {
      hide Rank, Ranked, SumOf, DocumentIds, IsBefore;
      var n := |entries| - 1;
      RanksFillUp(entries[..n], d, k);
      RankOfLast(entries, n);
      SumOfRankedSplits(entries, n, IsBefore(d, k));
      CountSplitsAtEnd(entries, n, d);
    }
  }

  /** Later rows of a digest have higher ranks, and ranks stay below the digest's count. */
  lemma RanksRise(entries: seq<ManifestEntry>, i: nat, j: nat)
    requires i < j < |entries| && entries[i].documentId == entries[j].documentId
    ensures Rank(entries, i) < Rank(entries, j)
  {
    var ids := DocumentIds(entries);
    assert ids[..j] == ids[..i] + ([ids[i]] + ids[i + 1..j]);
  }

  lemma RankBelowCount(entries: seq<ManifestEntry>, i: nat)
    requires i < |entries|
    ensures Rank(entries, i) < multiset(DocumentIds(entries))[entries[i].documentId]
  {
    var ids := DocumentIds(entries);
    assert ids == ids[..i] + ([ids[i]] + ids[i + 1..]);
  }

  /** Sealed rows: what ranking and then sorting leave. */
  ghost function Sealed(entries: seq<ManifestEntry>): (r: seq<ManifestEntry>)
    ensures |r| == |entries|
  {
    SortBy(CanonicalLeq, Ranked(entries))
  }

  /** Where a sealed row was among the ranked ones. */
  lemma SealedFrom(entries: seq<ManifestEntry>, i: nat) returns (a: nat)
    requires i < |entries|
    ensures a < |entries| && Sealed(entries)[i] == Ranked(entries)[a]
  {
    SortByPermutes(CanonicalLeq, Ranked(entries));
    SameMultisetSameMembers(Ranked(entries), Sealed(entries));
    assert Sealed(entries)[i] in Ranked(entries);
    a :| 0 <= a < |entries| && Ranked(entries)[a] == Sealed(entries)[i];
  }

  /** Ascending by document id, and within one strictly by occurrence index. */
  ghost predicate StrictlyCanonical(r: seq<ManifestEntry>) {
    forall i, j :: 0 <= i < j < |r| ==>
      && DigestLeq(r[i].documentId, r[j].documentId)
      && (r[i].documentId == r[j].documentId ==> r[i].occurrenceIndex < r[j].occurrenceIndex)
  }

  lemma SealedIsStrictlyCanonical(entries: seq<ManifestEntry>)
    ensures StrictlyCanonical(Sealed(entries))
  {
    var r := Sealed(entries);
    forall i, j | 0 <= i < j < |r|
      ensures DigestLeq(r[i].documentId, r[j].documentId)
      ensures r[i].documentId == r[j].documentId ==> r[i].occurrenceIndex < r[j].occurrenceIndex
    {
      CanonicalOrder();
      SortBySorts(CanonicalLeq, Ranked(entries));
      assert CanonicalLeq(r[i], r[j]);
      if r[i].documentId == r[j].documentId {
        LexIrreflexive(r[i].documentId);
        var a, b := SealedPair(entries, i, j);
      }
    }
  }

  /** Rows of a digest sit in the sealed order in their order of input. */
  lemma SealedPair(entries: seq<ManifestEntry>, i: nat, j: nat) returns (a: nat, b: nat)
    requires i < j < |entries|
    requires var r := Sealed(entries);
             r[i].documentId == r[j].documentId && r[i].occurrenceIndex <= r[j].occurrenceIndex
    ensures a < b < |entries| && Sealed(entries)[i] == Ranked(entries)[a] && Sealed(entries)[j] == Ranked(entries)[b]
    ensures Sealed(entries)[i].occurrenceIndex < Sealed(entries)[j].occurrenceIndex
  {
    a := SealedFrom(entries, i);
    b := SealedFrom(entries, j);
    SealedDistinct(entries, i, j);
    if a < b {
      RanksRise(entries, a, b);
    } else {
      assert a != b;
      RanksRise(entries, b, a);
    }
  }

  lemma SealedDistinct(entries: seq<ManifestEntry>, i: nat, j: nat)
    requires i < j < |entries|
    ensures Sealed(entries)[i] != Sealed(entries)[j]
  {
    forall a, b | 0 <= a < b < |entries|
      ensures Ranked(entries)[a] != Ranked(entries)[b]
    {
      if entries[a].documentId == entries[b].documentId {
        RanksRise(entries, a, b);
      }
    }
    assert NoRepeats(Ranked(entries));
    SortKeepsNoRepeats(CanonicalLeq, Ranked(entries));
  }

  /** The auditor's check: counting again along the sealed order gives every row the
      occurrence index it already has. */
  lemma SealedRank(entries: seq<ManifestEntry>, i: nat)
    requires i < |entries|
    ensures Sealed(entries)[i].occurrenceIndex == Rank(Sealed(entries), i)
  {
    var r := Sealed(entries);
    var d, k := r[i].documentId, r[i].occurrenceIndex;
    var a := SealedFrom(entries, i);
    RankBelowCount(entries, a);
    RanksFillUp(entries, d, k);
    SortByPermutes(CanonicalLeq, Ranked(entries));
    SumOfPermutation(IsBefore(d, k), Ranked(entries), r);
    SealedIsStrictlyCanonical(entries);
    CountSplits(r, i);
  }

  /** In strictly canonical rows, the rows before i of its digest are those of lower index. */
  lemma CountSplits(r: seq<ManifestEntry>, i: nat)
    requires StrictlyCanonical(r) && i < |r|
    ensures SumOf(IsBefore(r[i].documentId, r[i].occurrenceIndex), r) == Rank(r, i)
  {
    var f := IsBefore(r[i].documentId, r[i].occurrenceIndex);
    assert r == r[..i] + r[i..];
    SumOfAppend(f, r[..i], r[i..]);
    SumOfEqual(f, IsAbout(r[i].documentId), r[..i]);
    CountOfDigest(r[i].documentId, r[..i]);
    SumOfNothing(f, r[i..]);
    assert DocumentIds(r)[..i] == DocumentIds(r[..i]);
  }

  lemma {:induction false} SumOfNothing(f: ManifestEntry -> nat, s: seq<ManifestEntry>)
    requires forall e :: e in s ==> f(e) == 0
    ensures SumOf(f, s) == 0
  {
    if s != [] {
      SumOfNothing(f, s[1..]);
    }
  }

  /** Within a digest's group the sealed order is the order of input. */
  lemma SealedOrdinals(entries: seq<ManifestEntry>, i: nat, j: nat)
    requires forall a, b :: 0 <= a < b < |entries| ==> entries[a].inputOrdinal < entries[b].inputOrdinal
    requires i < j < |entries| && Sealed(entries)[i].documentId == Sealed(entries)[j].documentId
    ensures Sealed(entries)[i].inputOrdinal < Sealed(entries)[j].inputOrdinal
  {
    SealedIsStrictlyCanonical(entries);
    var a, b := SealedPair(entries, i, j);
  }

  /** The sealed document ids are the input's, sorted. */
  lemma SealedIds(entries: seq<ManifestEntry>)
    ensures DocumentIds(Sealed(entries)) == SortBy(DigestLeq, DocumentIds(entries))
    ensures SortedManifest(Sealed(entries))
  {
    var ids := DocumentIds(Sealed(entries));
    SealedIsStrictlyCanonical(entries);
    SortByPermutes(CanonicalLeq, Ranked(entries));
    IdsOfPermutation(Ranked(entries), Sealed(entries));
    DigestOrder();
    SortByPermutes(DigestLeq, DocumentIds(entries));
    SortBySorts(DigestLeq, DocumentIds(entries));
    SortedUnique(DigestLeq, ids, SortBy(DigestLeq, DocumentIds(entries)));
  }

  lemma IdsOfPermutation(a: seq<ManifestEntry>, b: seq<ManifestEntry>)
    requires multiset(a) == multiset(b)
    ensures multiset(DocumentIds(a)) == multiset(DocumentIds(b))
  {
    forall d: Digest
      ensures multiset(DocumentIds(a))[d] == multiset(DocumentIds(b))[d]
    {
      SumOfPermutation(IsAbout(d), a, b);
      CountOfDigest(d, a);
      CountOfDigest(d, b);
    }
  }
}
