/** The sidecar index and its on-disk format: a printer that appends to a buffer and a
    parser that advances a bounds-checked cursor. The source's BTreeMap of buckets is the
    sequence of its entries in ascending key order. */
module Sidecar {
  import opened Basics
  import opened Ordering
  import opened Banding

  datatype SubIndexKind = Minhash | Perceptual | Iscc

  datatype SigEntry = SigEntry(row: u64, sig: seq<u64>)

  datatype Bucket = Bucket(key: BandKey, members: seq<u64>)

  datatype FuzzyIndex = FuzzyIndex(
    kind: SubIndexKind,
    bindingRoot: Digest,
    sigWidth: u16,
    bands: u16,
    rowsOrBits: u16,
    signatures: seq<SigEntry>,
    buckets: seq<Bucket>)

  datatype IndexError =
    | BadMagic
    | UnsupportedVersion(version: u16)
    | UnknownKind(kind: u16)
    | SignatureWidthMismatch(expected: u16, got: nat)
    | Truncated(offset: nat, needed: nat)
    | TrailerMismatch
    | CapacityOverflow // a panic: the allocation asked for exceeds the address space

  const MAGIC: Bytes := [0x41, 0x54, 0x53, 0x54, 0x52, 0x4D, 0x49, 0x58]
  const FORMAT_VER: u16 := 1

  // ------------------------------------------------------------------------
  // The ordered bucket map
  // ------------------------------------------------------------------------

  predicate KeyLess(a: BandKey, b: BandKey) {
    a.0 < b.0 || (a.0 == b.0 && a.1 < b.1)
  }

  ghost predicate AscendingKeys(buckets: seq<Bucket>) {
    forall i, j :: 0 <= i < j < |buckets| ==> KeyLess(buckets[i].key, buckets[j].key)
  }

  /** BTreeMap lookup. */
  function Lookup(buckets: seq<Bucket>, key: BandKey): Option<seq<u64>> {
    if buckets == [] then None
    else if buckets[0].key == key then Some(buckets[0].members)
    else Lookup(buckets[1..], key)
  }

  /** BTreeMap insertion: a present key has its value replaced. */
  function Put(buckets: seq<Bucket>, key: BandKey, members: seq<u64>): seq<Bucket> {
    if buckets == [] || KeyLess(key, buckets[0].key) then [Bucket(key, members)] + buckets
    else if buckets[0].key == key then [Bucket(key, members)] + buckets[1..]
    else [buckets[0]] + Put(buckets[1..], key, members)
  }

  lemma {:induction false} LookupPresent(buckets: seq<Bucket>, key: BandKey)
    requires AscendingKeys(buckets)
    ensures Lookup(buckets, key).Some? ==> Bucket(key, Lookup(buckets, key).value) in buckets
    ensures forall b :: b in buckets && b.key == key ==> Lookup(buckets, key) == Some(b.members)
  {
    if buckets != [] {
      LookupPresent(buckets[1..], key);
      assert buckets == [buckets[0]] + buckets[1..];
      forall b | b in buckets && b.key == key
        ensures Lookup(buckets, key) == Some(b.members)
      {
        if buckets[0].key == key {
          var i :| 0 <= i < |buckets| && buckets[i] == b;
          assert i == 0;
        }
      }
    }
  }

  lemma {:induction false} PutSpec(buckets: seq<Bucket>, key: BandKey, members: seq<u64>)
    requires AscendingKeys(buckets)
    ensures AscendingKeys(Put(buckets, key, members))
    ensures |Put(buckets, key, members)| <= |buckets| + 1
    ensures Lookup(Put(buckets, key, members), key) == Some(members)
    ensures forall k :: k != key ==> Lookup(Put(buckets, key, members), k) == Lookup(buckets, k)
    ensures forall b :: b in Put(buckets, key, members) ==> b == Bucket(key, members) || b in buckets
  {
    var r := Put(buckets, key, members);
    if buckets == [] || KeyLess(key, buckets[0].key) {
      assert r[1..] == buckets;
    } else if buckets[0].key == key {
      assert r[1..] == buckets[1..];
    } else {
      PutSpec(buckets[1..], key, members);
      assert r[1..] == Put(buckets[1..], key, members);
    }
  }

  /** A key above all present ones is appended. */
  lemma {:induction false} PutAppends(buckets: seq<Bucket>, key: BandKey, members: seq<u64>)
    requires forall i :: 0 <= i < |buckets| ==> KeyLess(buckets[i].key, key)
    ensures Put(buckets, key, members) == buckets + [Bucket(key, members)]
  {
    if buckets != [] {
      PutAppends(buckets[1..], key, members);
    }
  }

  // ------------------------------------------------------------------------
  // from_parts
  // ------------------------------------------------------------------------

  function RowLeq(): (SigEntry, SigEntry) -> bool {
    (a: SigEntry, b: SigEntry) => a.row <= b.row
  }

  /** Members sorted and deduplicated, bucket by bucket. */
  function NormalizeBucket(b: Bucket): (r: Bucket)
    ensures r.key == b.key
  {
    Bucket(b.key, SortedMembers(b.members))
  }

  function Normalize(buckets: seq<Bucket>): (r: seq<Bucket>)
    ensures |r| == |buckets|
  {
    seq(|buckets|, i requires 0 <= i < |buckets| => NormalizeBucket(buckets[i]))
  }

  function SortedMembers(members: seq<u64>): (r: seq<u64>) {
    SortDedupMembers(members);
    SortDedup(members)
  }

  lemma SortDedupMembers(members: seq<u64>)
    ensures forall i :: 0 <= i < |SortDedup(members)| ==> 0 <= SortDedup(members)[i] < 0x1_0000_0000_0000_0000
  {
    SortDedupSpec(members);
    forall i | 0 <= i < |SortDedup(members)|
      ensures 0 <= SortDedup(members)[i] < 0x1_0000_0000_0000_0000
    {
      assert SortDedup(members)[i] in members;
    }
  }

  function FirstBadWidth(signatures: seq<SigEntry>, width: u16): Option<nat> {
    if signatures == [] then None
    else if |signatures[0].sig| != width then Some(|signatures[0].sig|)
    else FirstBadWidth(signatures[1..], width)
  }

  function FromParts(kind: SubIndexKind, root: Digest, sigWidth: u16, bands: u16, rowsOrBits: u16,
                     signatures: seq<SigEntry>, buckets: seq<Bucket>): Result<FuzzyIndex, IndexError>
  {
    match FirstBadWidth(signatures, sigWidth)
    case Some(got) => Err(SignatureWidthMismatch(sigWidth, got))
    case None => Ok(FuzzyIndex(kind, root, sigWidth, bands, rowsOrBits,
                               SortBy(RowLeq(), signatures), Normalize(buckets)))
  }

  method FromPartsLoop(kind: SubIndexKind, root: Digest, sigWidth: u16, bands: u16, rowsOrBits: u16,
                       signatures: seq<SigEntry>, buckets: seq<Bucket>) returns (r: Result<FuzzyIndex, IndexError>)
    ensures r == FromParts(kind, root, sigWidth, bands, rowsOrBits, signatures, buckets)
  {
    for i := 0 to |signatures|
      invariant FirstBadWidth(signatures, sigWidth) == FirstBadWidth(signatures[i..], sigWidth)
    {
      if |signatures[i].sig| != sigWidth {
        return Err(SignatureWidthMismatch(sigWidth, |signatures[i].sig|));
      }
      assert signatures[i..][1..] == signatures[i + 1..];
    }
    assert signatures[|signatures|..] == [];
    var normal: seq<Bucket> := [];
    for i := 0 to |buckets|
      invariant normal == Normalize(buckets)[..i]
    {
      normal := normal + [NormalizeBucket(buckets[i])];
    }
    assert normal == Normalize(buckets);
    r := Ok(FuzzyIndex(kind, root, sigWidth, bands, rowsOrBits, SortBy(RowLeq(), signatures), normal));
  }

  lemma {:induction false} WidthsChecked(signatures: seq<SigEntry>, width: u16)
    ensures FirstBadWidth(signatures, width).None? <==> forall s :: s in signatures ==> |s.sig| == width
  {
    if signatures != [] {
      WidthsChecked(signatures[1..], width);
      assert signatures == [signatures[0]] + signatures[1..];
    }
  }

  lemma {:induction false} BadWidthIsFirst(signatures: seq<SigEntry>, width: u16) returns (i: nat)
    requires FirstBadWidth(signatures, width).Some?
    ensures i < |signatures| && |signatures[i].sig| != width
    ensures forall j :: 0 <= j < i ==> |signatures[j].sig| == width
    ensures FirstBadWidth(signatures, width) == Some(|signatures[i].sig|)
  {
    if |signatures[0].sig| != width {
      i := 0;
    } else {
      i := BadWidthIsFirst(signatures[1..], width);
      i := i + 1;
    }
  }

  lemma RowOrder()
    ensures TotalPreorder(RowLeq())
  {
  }

  /** from_parts succeeds iff every signature has the declared width; its result keeps the
      signatures as a multiset, in row order, and every bucket's member set, ascending. */
  lemma FromPartsSpec(kind: SubIndexKind, root: Digest, sigWidth: u16, bands: u16, rowsOrBits: u16,
                      signatures: seq<SigEntry>, buckets: seq<Bucket>)
    requires AscendingKeys(buckets)
    ensures var r := FromParts(kind, root, sigWidth, bands, rowsOrBits, signatures, buckets);
            && (r.Ok? <==> forall s :: s in signatures ==> |s.sig| == sigWidth)
            && (r.Err? ==> exists i :: 0 <= i < |signatures| && |signatures[i].sig| != sigWidth
                             && (forall j :: 0 <= j < i ==> |signatures[j].sig| == sigWidth)
                             && r.error == SignatureWidthMismatch(sigWidth, |signatures[i].sig|))
            && (r.Ok? ==>
                 && r.value.kind == kind && r.value.bindingRoot == root
                 && (r.value.sigWidth, r.value.bands, r.value.rowsOrBits) == (sigWidth, bands, rowsOrBits)
                 && multiset(r.value.signatures) == multiset(signatures)
                 && (forall i, j :: 0 <= i < j < |r.value.signatures| ==>
                       r.value.signatures[i].row <= r.value.signatures[j].row)
                 && (forall i :: 0 <= i < |r.value.signatures| ==> |r.value.signatures[i].sig| == sigWidth)
                 && (forall i, j :: 0 <= i < j < |r.value.buckets| ==>
                       var (a, b) := (r.value.buckets[i].key, r.value.buckets[j].key);
                       a.0 < b.0 || (a.0 == b.0 && a.1 < b.1))
                 && |r.value.buckets| == |buckets|
                 && forall i :: 0 <= i < |buckets| ==>
                      && r.value.buckets[i].key == buckets[i].key
                      && Ascending(r.value.buckets[i].members)
                      && forall x :: x in r.value.buckets[i].members <==> x in buckets[i].members)
  {
    WidthsChecked(signatures, sigWidth);
    if FirstBadWidth(signatures, sigWidth).Some? {
      var _ := BadWidthIsFirst(signatures, sigWidth);
    }
    RowOrder();
    SortBySorts(RowLeq(), signatures);
    SortByPermutes(RowLeq(), signatures);
    SameMultisetSameMembers(signatures, SortBy(RowLeq(), signatures));
    forall i | 0 <= i < |buckets|
      ensures Ascending(Normalize(buckets)[i].members)
      ensures forall x :: x in Normalize(buckets)[i].members <==> x in buckets[i].members
    {
      SortDedupSpec(buckets[i].members);
    }
  }

  /** Neither the insertion order of signatures with distinct rows nor that of bucket members
      reaches the index, hence not its bytes. */
  lemma FromPartsIgnoresOrder(kind: SubIndexKind, root: Digest, sigWidth: u16, bands: u16, rowsOrBits: u16,
                              s: seq<SigEntry>, t: seq<SigEntry>, b: seq<Bucket>, c: seq<Bucket>)
    requires multiset(s) == multiset(t) && AntisymmetricOn(RowLeq(), s)
    requires |b| == |c|
    requires forall i :: 0 <= i < |b| ==> b[i].key == c[i].key
    requires forall i :: 0 <= i < |b| ==> forall x :: x in b[i].members <==> x in c[i].members
    requires FirstBadWidth(s, sigWidth).None?
    ensures FromParts(kind, root, sigWidth, bands, rowsOrBits, s, b)
         == FromParts(kind, root, sigWidth, bands, rowsOrBits, t, c)
  {
    WidthsChecked(s, sigWidth);
    WidthsChecked(t, sigWidth);
    SameMultisetSameMembers(s, t);
    RowOrder();
    SortOfPermutation(RowLeq(), s, t);
    forall i | 0 <= i < |b|
      ensures Normalize(b)[i] == Normalize(c)[i]
    {
      SortDedupSpec(b[i].members);
      SortDedupSpec(c[i].members);
      AscendingUnique(SortDedup(b[i].members), SortDedup(c[i].members));
    }
    assert Normalize(b) == Normalize(c);
  }

  // ------------------------------------------------------------------------
  // Lookup
  // ------------------------------------------------------------------------

  function CompareRow(s: SigEntry, row: nat): Order {
    if s.row < row then Less else if s.row == row then Equal else Greater
  }

  /** The persisted signature of a row, by binary search. */
  function Signature(idx: FuzzyIndex, row: nat): Option<seq<u64>> {
    match BinarySearchBy((s: SigEntry) => CompareRow(s, row), idx.signatures, 0, |idx.signatures|)
    case Ok(i) => Some(idx.signatures[i].sig)
    case Err(_) => None
  }

  ghost predicate StrictlyByRow(signatures: seq<SigEntry>) {
    forall i, j :: 0 <= i < j < |signatures| ==> signatures[i].row < signatures[j].row
  }

  lemma SignatureFinds(idx: FuzzyIndex, row: nat)
    requires StrictlyByRow(idx.signatures)
    ensures forall s :: s in idx.signatures && s.row == row ==> Signature(idx, row) == Some(s.sig)
    ensures Signature(idx, row).Some? ==> exists s :: s in idx.signatures && s.row == row
  {
    var cmp := (s: SigEntry) => CompareRow(s, row);
    var r := BinarySearchBy(cmp, idx.signatures, 0, |idx.signatures|);
    assert Partitioned(cmp, idx.signatures);
    match r
    case Ok(i) =>
      assert idx.signatures[i] in idx.signatures;
    case Err(e) =>
      forall k | 0 <= k < |idx.signatures|
        ensures idx.signatures[k].row != row
      {
        assert if k < e then cmp(idx.signatures[k]).Less? else cmp(idx.signatures[k]).Greater?;
      }
  }

  function InsertMembers(acc: seq<int>, members: seq<u64>): seq<int>
    decreases |members|
  {
    if members == [] then acc else InsertMembers(InsertAscending(members[0], acc), members[1..])
  }

  /** The ascending union of the buckets of the given keys. */
  function CandidatesFrom(buckets: seq<Bucket>, keys: seq<BandKey>, acc: seq<int>): seq<int> {
    if keys == [] then acc
    else
      var found := Lookup(buckets, keys[0]);
      CandidatesFrom(buckets, keys[1..], if found.Some? then InsertMembers(acc, found.value) else acc)
  }

  function Candidates(idx: FuzzyIndex, keys: seq<BandKey>): seq<int> {
    CandidatesFrom(idx.buckets, keys, [])
  }

  method CandidatesLoop(idx: FuzzyIndex, keys: seq<BandKey>) returns (rows: seq<int>)
    ensures rows == Candidates(idx, keys)
  {
    rows := [];
    for i := 0 to |keys|
      invariant CandidatesFrom(idx.buckets, keys[i..], rows) == Candidates(idx, keys)
    {
      assert keys[i..][1..] == keys[i + 1..];
      var found := Lookup(idx.buckets, keys[i]);
      if found.Some? {
        rows := InsertMembers(rows, found.value);
      }
    }
  }

  lemma {:induction false} InsertMembersSpec(acc: seq<int>, members: seq<u64>)
    requires Ascending(acc)
    ensures Ascending(InsertMembers(acc, members))
    ensures forall x :: x in InsertMembers(acc, members) <==> x in acc || x in members
    decreases |members|
  {
    if members != [] {
      InsertAscendingSpec(members[0], acc);
      InsertMembersSpec(InsertAscending(members[0], acc), members[1..]);
      assert members == [members[0]] + members[1..];
    }
  }

  ghost predicate InSomeBucket(buckets: seq<Bucket>, keys: seq<BandKey>, row: int) {
    exists k :: k in keys && Lookup(buckets, k).Some? && row in Lookup(buckets, k).value
  }

  lemma {:induction false} CandidatesFromSpec(buckets: seq<Bucket>, keys: seq<BandKey>, acc: seq<int>)
    requires Ascending(acc)
    ensures Ascending(CandidatesFrom(buckets, keys, acc))
    ensures forall x :: x in CandidatesFrom(buckets, keys, acc) <==> x in acc || InSomeBucket(buckets, keys, x)
    decreases |keys|
  {
    if keys != [] {
      var found := Lookup(buckets, keys[0]);
      var acc' := if found.Some? then InsertMembers(acc, found.value) else acc;
      if found.Some? {
        InsertMembersSpec(acc, found.value);
      }
      CandidatesFromSpec(buckets, keys[1..], acc');
      assert keys == [keys[0]] + keys[1..];
      forall x
        ensures InSomeBucket(buckets, keys, x) <==>
                InSomeBucket(buckets, keys[1..], x) || (found.Some? && x in found.value)
      {
      }
    }
  }

  /** Ascending, without repetition, and exactly the rows of the queried buckets. */
  lemma CandidatesSpec(idx: FuzzyIndex, keys: seq<BandKey>)
    ensures Ascending(Candidates(idx, keys))
    ensures forall x :: x in Candidates(idx, keys) <==> InSomeBucket(idx.buckets, keys, x)
  {
    CandidatesFromSpec(idx.buckets, keys, []);
  }
}
