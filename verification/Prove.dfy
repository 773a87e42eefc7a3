/** The exact arms of the prover: exact lookup, inclusion proofs, and non-inclusion proofs
    by sorted adjacency. A panic of the source is the error Panicked. */
module Prove {
  import opened Basics
  import opened Ordering
  import opened Hex
  import opened Merkle
  import opened Manifest

  // ------------------------------------------------------------------------
  // Adjacency
  // ------------------------------------------------------------------------

  datatype AdjacencyResult =
    | Found(leafIndex: nat)
    | Interior(left: nat, right: nat)
    | BeforeFirst(right: nat)
    | AfterLast(left: nat)
    | Empty

  function CompareDigest(leaf: Digest, target: Digest): Order {
    if leaf == target then Equal else if LexLess(leaf, target) then Less else Greater
  }

  function FindAdjacentLeaves(leaves: seq<Digest>, target: Digest): AdjacencyResult {
    if leaves == [] then Empty
    else
      match BinarySearchBy((leaf: Digest) => CompareDigest(leaf, target), leaves, 0, |leaves|)
      case Ok(i) => Found(i)
      case Err(i) =>
        if i == 0 then BeforeFirst(0)
        else if i == |leaves| then AfterLast(i - 1)
        else AdjacencyResult.Interior(i - 1, i)
  }

  /** Where a target falls in an ascending list, in every case. */
  ghost predicate Placed(leaves: seq<Digest>, target: Digest, r: AdjacencyResult) {
    match r
    case Empty => leaves == []
    case Found(i) => i < |leaves| && leaves[i] == target
    case Interior(l, h) => h == l + 1 < |leaves| && LexLess(leaves[l], target) && LexLess(target, leaves[h])
    case BeforeFirst(h) => h == 0 < |leaves| && LexLess(target, leaves[0])
    case AfterLast(l) => leaves != [] && l == |leaves| - 1 && LexLess(leaves[l], target)
  }

  lemma ComparePartitions(leaves: seq<Digest>, target: Digest)
    requires AscendingDigests(leaves)
    ensures Partitioned((leaf: Digest) => CompareDigest(leaf, target), leaves)
  {
    forall i, j | 0 <= i < j < |leaves|
      ensures CompareDigest(leaves[j], target).Less? ==> CompareDigest(leaves[i], target).Less?
      ensures CompareDigest(leaves[i], target).Greater? ==> CompareDigest(leaves[j], target).Greater?
    {
      var a, b := leaves[i], leaves[j];
      assert LexLeq(a, b);
      LexTrichotomy(a, target);
      LexTrichotomy(b, target);
      if LexLess(a, b) {
        if LexLess(b, target) {
          LexTransitive(a, b, target);
          LexAsymmetric(a, target);
        }
        if LexLess(target, a) {
          LexTransitive(target, a, b);
          LexAsymmetric(target, b);
          LexAsymmetric(target, a);
        }
      }
    }
  }

  /** On an ascending list the search places the target, and finds it iff it occurs. */
  lemma AdjacencyIsExact(leaves: seq<Digest>, target: Digest)
    requires AscendingDigests(leaves)
    ensures Placed(leaves, target, FindAdjacentLeaves(leaves, target))
    ensures FindAdjacentLeaves(leaves, target).Found? <==> target in leaves
  {
    if leaves != [] {
      ComparePartitions(leaves, target);
      var cmp := (leaf: Digest) => CompareDigest(leaf, target);
      match BinarySearchBy(cmp, leaves, 0, |leaves|)
      case Ok(i) =>
      case Err(i) =>
        forall k | 0 <= k < |leaves|
          ensures k < i ==> LexLess(leaves[k], target)
          ensures k >= i ==> LexLess(target, leaves[k])
          ensures leaves[k] != target
        {
          assert k < i ==> cmp(leaves[k]).Less?;
          assert k >= i ==> cmp(leaves[k]).Greater?;
          LexTrichotomy(leaves[k], target);
        }
    }
  }

  /** A placed target that is not found does not occur in the ascending list. */
  lemma PlacedIsAbsent(leaves: seq<Digest>, target: Digest, r: AdjacencyResult)
    requires AscendingDigests(leaves) && Placed(leaves, target, r) && !r.Found?
    ensures target !in leaves
  {
    forall k | 0 <= k < |leaves|
      ensures leaves[k] != target
    {
      LexIrreflexive(target);
      var below := match r case Interior(l, _) => l case AfterLast(l) => l case _ => -1;
      if k <= below {
        assert LexLeq(leaves[k], leaves[below]);
        if leaves[k] == target {
          LexAsymmetric(leaves[below], target);
        }
      } else {
        assert LexLeq(leaves[below + 1], leaves[k]);
        if leaves[k] == target {
          LexAsymmetric(target, leaves[below + 1]);
        }
      }
    }
  }

  // ------------------------------------------------------------------------
  // Exact lookup
  // ------------------------------------------------------------------------

  datatype MatchEvidence = ExactBlake3 | ExactSha256

  datatype InvalidReason =
    | EmptyManifest
    | Sha256NonInclusion
    | BundleHex(hex: HexError)
    | NeighborPath(path: AuditPathError)
    | PredicateInvalid

  datatype ProveError =
    | InvalidManifest(reason: InvalidReason)
    | Ambiguous(candidates: nat)
    | Panicked

  /** The rows of a column that equal the target, in row order. */
  function Hits(column: seq<Digest>, target: Digest): (hits: seq<nat>)
    ensures forall i :: i in hits ==> i < |column| && column[i] == target
  {
    if column == [] then []
    else
      var n := |column| - 1;
      Hits(column[..n], target) + if column[n] == target then [n] else []
  }

  lemma {:induction false} HitsCountOccurrences(column: seq<Digest>, target: Digest)
    ensures |Hits(column, target)| == multiset(column)[target]
  {
    if column != [] {
      var n := |column| - 1;
      HitsCountOccurrences(column[..n], target);
      assert column == column[..n] + [column[n]];
    }
  }

  function FindExactMatch(entries: seq<ManifestEntry>, blake3: Option<Digest>, sha256: Option<Digest>)
    : Result<Option<(nat, MatchEvidence)>, ProveError>
  {
    var byBlake3 := if blake3.Some? then Hits(DocumentIds(entries), blake3.value) else [];
    if |byBlake3| == 1 then Ok(Some((byBlake3[0], ExactBlake3)))
    else if |byBlake3| >= 2 then Err(Ambiguous(|byBlake3|))
    else
      var bySha256 := if sha256.Some? then Hits(Sha256s(entries), sha256.value) else [];
      if |bySha256| == 1 then Ok(Some((bySha256[0], ExactSha256)))
      else if |bySha256| >= 2 then Err(Ambiguous(|bySha256|))
      else Ok(None)
  }

  // ------------------------------------------------------------------------
  // Predicates
  // ------------------------------------------------------------------------

  function EncodeAll(path: seq<Digest>): (r: seq<Text>)
    ensures |r| == |path|
  {
    seq(|path|, i requires 0 <= i < |path| => Encode(path[i]))
  }

  const INCLUSION := "inclusion"
  const NON_INCLUSION := "non-inclusion"

  datatype InclusionProof = InclusionProof(
    proofType: string,
    merkleRoot: Text,
    evidence: MatchEvidence,
    treeSize: nat,
    leafCount: nat,
    leafHash: Text,
    auditPath: seq<Text>,
    leafIndex: nat)
  {
    predicate Validates() {
      proofType == INCLUSION
    }
  }

  datatype BoundaryCase = InteriorCase | BeforeFirstCase | AfterLastCase

  datatype Neighbor = Neighbor(
    leafHash: Text,
    orderingKey: Text,
    leafIndex: nat,
    auditPath: seq<Text>)

  datatype NonInclusionProof = NonInclusionProof(
    proofType: string,
    merkleRoot: Text,
    treeSize: nat,
    queryKey: Text,
    boundaryCase: BoundaryCase,
    left: Option<Neighbor>,
    right: Option<Neighbor>)
  {
    predicate Validates() {
      && proofType == NON_INCLUSION
      && match boundaryCase
         case InteriorCase => left.Some? && right.Some?
         case BeforeFirstCase => right.Some?
         case AfterLastCase => left.Some?
    }
  }

  datatype Proof = Inclusion(inclusion: InclusionProof) | NonInclusion(absence: NonInclusionProof)

  // ------------------------------------------------------------------------
  // The prover
  // ------------------------------------------------------------------------

  datatype ProofTarget =
    | Blake3(digest: Digest)
    | Sha256(digest: Digest)
    | Bundle(blake3: Text, sha256: Text)

  function EmitInclusion(H: Hasher, entries: seq<ManifestEntry>, leafIndex: nat, evidence: MatchEvidence)
    : (r: Result<Proof, ProveError>)
    ensures r.Ok? ==> r.value.Inclusion?
  {
    var ids := DocumentIds(entries);
    match AuditPathResult(H, MerkleTree(ids), leafIndex)
    case Err(_) => Err(Panicked)
    case Ok(audit) =>
      var p := InclusionProof(INCLUSION, Encode(MTH(H, ids)), evidence, |entries|, |entries|,
                              Encode(ids[leafIndex]), EncodeAll(audit), leafIndex);
      if p.Validates() then Ok(Inclusion(p)) else Err(InvalidManifest(PredicateInvalid))
  }

  function BuildNeighbor(H: Hasher, ids: seq<Digest>, i: nat): Result<Neighbor, ProveError> {
    match AuditPathResult(H, MerkleTree(ids), i)
    case Err(e) => Err(InvalidManifest(NeighborPath(e)))
    case Ok(audit) => Ok(Neighbor(Encode(ids[i]), Encode(ids[i]), i, EncodeAll(audit)))
  }

  function EmitAbsence(H: Hasher, ids: seq<Digest>, target: Digest,
                       boundaryCase: BoundaryCase, left: Option<Neighbor>, right: Option<Neighbor>)
    : (r: Result<Proof, ProveError>)
    ensures r.Ok? ==> r.value.NonInclusion?
  {
    var p := NonInclusionProof(NON_INCLUSION, Encode(MTH(H, ids)), |ids|, Encode(target), boundaryCase, left, right);
    if p.Validates() then Ok(NonInclusion(p)) else Err(InvalidManifest(PredicateInvalid))
  }

  function DispatchNonInclusion(H: Hasher, target: Digest, entries: seq<ManifestEntry>): (r: Result<Proof, ProveError>)
    ensures r.Ok? ==> r.value.NonInclusion?
  {
    var ids := DocumentIds(entries);
    match FindAdjacentLeaves(ids, target)
    case Found(_) => Err(Panicked)
    case Empty => Err(InvalidManifest(EmptyManifest))
    case Interior(l, h) =>
      (match BuildNeighbor(H, ids, l)
       case Err(e) => Err(e)
       case Ok(ln) =>
         match BuildNeighbor(H, ids, h)
         case Err(e) => Err(e)
         case Ok(rn) => EmitAbsence(H, ids, target, InteriorCase, Some(ln), Some(rn)))
    case BeforeFirst(h) =>
      (match BuildNeighbor(H, ids, h)
       case Err(e) => Err(e)
       case Ok(rn) => EmitAbsence(H, ids, target, BeforeFirstCase, None, Some(rn)))
    case AfterLast(l) =>
      match BuildNeighbor(H, ids, l)
      case Err(e) => Err(e)
      case Ok(ln) => EmitAbsence(H, ids, target, AfterLastCase, Some(ln), None)
  }

  /** The arm shared by Blake3 and Bundle targets. */
  function ProveExact(H: Hasher, blake3: Digest, sha256: Option<Digest>, entries: seq<ManifestEntry>)
    : Result<Proof, ProveError>
  {
    match FindExactMatch(entries, Some(blake3), sha256)
    case Err(e) => Err(e)
    case Ok(None) => DispatchNonInclusion(H, blake3, entries)
    case Ok(Some(hit)) => EmitInclusion(H, entries, hit.0, hit.1)
  }

  function ProveTarget(H: Hasher, target: ProofTarget, entries: seq<ManifestEntry>): Result<Proof, ProveError> {
    match target
    case Blake3(d) => ProveExact(H, d, None, entries)
    case Bundle(b3, s256) =>
      (match Decode32(b3)
       case Err(e) => Err(InvalidManifest(BundleHex(e)))
       case Ok(b) =>
         match Decode32(s256)
         case Err(e) => Err(InvalidManifest(BundleHex(e)))
         case Ok(s) => ProveExact(H, b, Some(s), entries))
    case Sha256(s) =>
      match FindExactMatch(entries, None, Some(s))
      case Err(e) => Err(e)
      case Ok(None) => Err(InvalidManifest(Sha256NonInclusion))
      case Ok(Some(hit)) => EmitInclusion(H, entries, hit.0, hit.1)
  }

  // ------------------------------------------------------------------------
  // Exact proving is a decision procedure
  // ------------------------------------------------------------------------

  function Occurrences(entries: seq<ManifestEntry>, target: Digest): nat {
    multiset(DocumentIds(entries))[target]
  }

  /** A reported match is a row in bounds whose named column holds the target. */
  lemma ExactMatchIsAHit(entries: seq<ManifestEntry>, blake3: Option<Digest>, sha256: Option<Digest>)
    ensures var r := FindExactMatch(entries, blake3, sha256);
            r.Ok? && r.value.Some? ==>
              var (i, evidence) := r.value.value;
              && i < |entries|
              && match evidence
                 case ExactBlake3 => blake3 == Some(entries[i].documentId)
                 case ExactSha256 => sha256 == Some(entries[i].sha256)
                                     && (blake3.Some? ==> blake3.value !in DocumentIds(entries))
  {
    if blake3.Some? {
      var ids := DocumentIds(entries);
      HitsCountOccurrences(ids, blake3.value);
      assert blake3.value in ids <==> blake3.value in multiset(ids);
      var hits := Hits(ids, blake3.value);
      assert |hits| >= 1 ==> hits[0] in hits;
    }
    if sha256.Some? {
      var hits := Hits(Sha256s(entries), sha256.value);
      assert |hits| >= 1 ==> hits[0] in hits;
    }
  }

  /** An absent target always yields a non-inclusion proof, except on the empty manifest. */
  lemma AbsentTargetDispatches(H: Hasher, d: Digest, entries: seq<ManifestEntry>)
    requires d !in DocumentIds(entries)
    ensures entries == [] ==> DispatchNonInclusion(H, d, entries) == Err(InvalidManifest(EmptyManifest))
    ensures entries != [] ==>
              DispatchNonInclusion(H, d, entries).Ok? && DispatchNonInclusion(H, d, entries).value.NonInclusion?
  {
    hide LexLess, LexLeq, MTH, PATH, Encode;
    var ids := DocumentIds(entries);
    var _ := BinarySearchBy((leaf: Digest) => CompareDigest(leaf, d), ids, 0, |ids|);
    assert !FindAdjacentLeaves(ids, d).Found?;
  }

  /** The proof emitted for a row, field by field. */
  ghost predicate ProvesRow(H: Hasher, entries: seq<ManifestEntry>, r: Result<Proof, ProveError>,
                            i: nat, evidence: MatchEvidence)
    requires i < |entries|
  {
    var ids := DocumentIds(entries);
    r == Ok(Inclusion(InclusionProof("inclusion", Encode(MTH(H, ids)), evidence, |entries|, |entries|,
                                     Encode(entries[i].documentId), EncodeAll(PATH(H, i, ids)), i)))
  }

  /** The only hit is the only row that holds the target. */
  lemma OneHit(column: seq<Digest>, target: Digest) returns (i: nat)
    requires multiset(column)[target] == 1
    ensures i < |column| && column[i] == target && Hits(column, target) == [i]
  {
    HitsCountOccurrences(column, target);
    i := Hits(column, target)[0];
    assert i in Hits(column, target);
  }

  lemma RowIsProved(H: Hasher, entries: seq<ManifestEntry>, i: nat, evidence: MatchEvidence)
    requires i < |entries|
    ensures ProvesRow(H, entries, EmitInclusion(H, entries, i, evidence), i, evidence)
  {
  }

  /** What a Sha256 target yields on any manifest: the only row that has it, or an error. */
  lemma Sha256ProvingDecides(H: Hasher, s: Digest, entries: seq<ManifestEntry>)
    ensures var r, n := ProveTarget(H, Sha256(s), entries), multiset(Sha256s(entries))[s];
            && (r.Ok? <==> n == 1)
            && (n == 1 ==> exists i: nat :: i < |entries| && entries[i].sha256 == s
                                            && ProvesRow(H, entries, r, i, ExactSha256))
            && (n == 0 <==> r == Err(InvalidManifest(Sha256NonInclusion)))
            && (n >= 2 ==> r == Err(Ambiguous(n)))
  {
    hide ProvesRow, EmitInclusion;
    HitsCountOccurrences(Sha256s(entries), s);
    if multiset(Sha256s(entries))[s] == 1 {
      var i := OneHit(Sha256s(entries), s);
      RowIsProved(H, entries, i, ExactSha256);
      assert entries[i].sha256 == s;
      ProvedIsOk(H, entries, EmitInclusion(H, entries, i, ExactSha256), i, ExactSha256);
    }
  }

  lemma ProvedIsOk(H: Hasher, entries: seq<ManifestEntry>, r: Result<Proof, ProveError>,
                   i: nat, evidence: MatchEvidence)
    requires i < |entries| && ProvesRow(H, entries, r, i, evidence)
    ensures r.Ok? && r.value.Inclusion?
  {
  }

  /** What a Bundle target yields: hex errors first, then the BLAKE3 column decides, and the
      SHA-256 column only where that does not hold the target at all. */
  lemma BundleProvingDecides(H: Hasher, b3: Text, s256: Text, entries: seq<ManifestEntry>)
    ensures var r := ProveTarget(H, Bundle(b3, s256), entries);
            && (Decode32(b3).Err? ==> r == Err(InvalidManifest(BundleHex(Decode32(b3).error))))
            && (Decode32(b3).Ok? && Decode32(s256).Err? ==> r == Err(InvalidManifest(BundleHex(Decode32(s256).error))))
    ensures Decode32(b3).Ok? && Decode32(s256).Ok? ==>
              var r, b, s := ProveTarget(H, Bundle(b3, s256), entries), Decode32(b3).value, Decode32(s256).value;
              var m, n := multiset(DocumentIds(entries))[b], multiset(Sha256s(entries))[s];
              && (m == 1 ==> exists i: nat :: i < |entries| && entries[i].documentId == b
                                              && ProvesRow(H, entries, r, i, ExactBlake3))
              && (m >= 2 ==> r == Err(Ambiguous(m)))
              && (m == 0 && n == 1 ==> exists i: nat :: i < |entries| && entries[i].sha256 == s
                                                        && ProvesRow(H, entries, r, i, ExactSha256))
              && (m == 0 && n >= 2 ==> r == Err(Ambiguous(n)))
              && (m == 0 && n == 0 ==> r == ProveTarget(H, Blake3(b), entries))
  {
    hide ProvesRow, EmitInclusion, DispatchNonInclusion, Decode32;
    if Decode32(b3).Ok? && Decode32(s256).Ok? {
      var b, s := Decode32(b3).value, Decode32(s256).value;
      HitsCountOccurrences(DocumentIds(entries), b);
      HitsCountOccurrences(Sha256s(entries), s);
      if multiset(DocumentIds(entries))[b] == 1 {
        var i := OneHit(DocumentIds(entries), b);
        RowIsProved(H, entries, i, ExactBlake3);
        assert entries[i].documentId == b;
      } else if multiset(DocumentIds(entries))[b] == 0 && multiset(Sha256s(entries))[s] == 1 {
        var i := OneHit(Sha256s(entries), s);
        RowIsProved(H, entries, i, ExactSha256);
        assert entries[i].sha256 == s;
      }
    }
  }

  /** The row a Blake3 target that occurs once is proved with. */
  lemma Blake3ProvesItsRow(H: Hasher, d: Digest, entries: seq<ManifestEntry>)
    requires Occurrences(entries, d) == 1
    ensures exists i: nat :: i < |entries| && entries[i].documentId == d
                             && ProvesRow(H, entries, ProveTarget(H, Blake3(d), entries), i, ExactBlake3)
  {
    hide ProvesRow, EmitInclusion;
    var i := OneHit(DocumentIds(entries), d);
    RowIsProved(H, entries, i, ExactBlake3);
    assert entries[i].documentId == d;
  }

  /** What a Blake3 target yields on any manifest, as a function of how often it occurs. */
  lemma ExactProvingDecides(H: Hasher, d: Digest, entries: seq<ManifestEntry>)
    ensures var r, n := ProveTarget(H, Blake3(d), entries), Occurrences(entries, d);
            && (r.Ok? && r.value.Inclusion? <==> n == 1)
            && (r.Ok? && r.value.NonInclusion? <==> n == 0 && entries != [])
            && (r == Err(InvalidManifest(EmptyManifest)) <==> entries == [])
            && (r.Err? && entries != [] <==> n >= 2)
            && (n >= 2 ==> r == Err(Ambiguous(n)))
  {
    var ids := DocumentIds(entries);
    HitsCountOccurrences(ids, d);
    assert d in ids <==> d in multiset(ids);
    ExactMatchIsAHit(entries, Some(d), None);
    if d !in ids {
      AbsentTargetDispatches(H, d, entries);
    }
  }

  /** No panicking arm is ever taken, sorted or not, for any exact target. */
  lemma ExactProvingNeverPanics(H: Hasher, target: ProofTarget, entries: seq<ManifestEntry>)
    ensures ProveTarget(H, target, entries) != Err(Panicked)
  {
    match target
    case Blake3(d) => ExactArmNeverPanics(H, d, None, entries);
    case Sha256(s) => ExactMatchIsAHit(entries, None, Some(s));
    case Bundle(b, s) =>
      if Decode32(b).Ok? && Decode32(s).Ok? {
        ExactArmNeverPanics(H, Decode32(b).value, Some(Decode32(s).value), entries);
      }
  }

  lemma ExactArmNeverPanics(H: Hasher, blake3: Digest, sha256: Option<Digest>, entries: seq<ManifestEntry>)
    ensures ProveExact(H, blake3, sha256, entries) != Err(Panicked)
  {
    var ids := DocumentIds(entries);
    HitsCountOccurrences(ids, blake3);
    assert blake3 in ids <==> blake3 in multiset(ids);
    ExactMatchIsAHit(entries, Some(blake3), sha256);
    if blake3 !in ids {
      AbsentTargetDispatches(H, blake3, entries);
    }
  }
}
