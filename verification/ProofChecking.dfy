/** What a verifier that holds only the corpus root learns from an emitted predicate: every
    emitted predicate passes the documented checks, and whatever passes them is true of
    every corpus with that root, or a hash collision is computed. */
module ProofChecking {
  import opened Basics
  import opened Ordering
  import opened Hex
  import opened Merkle
  import opened MerkleSoundness
  import opened Manifest
  import opened Prove

  function DecodeAll(texts: seq<Text>): (r: Option<seq<Digest>>)
    ensures r.Some? ==> |r.value| == |texts|
  {
    if texts == [] then Some([])
    else if Decode32(texts[0]).Err? then None
    else
      var rest := DecodeAll(texts[1..]);
      if rest.None? then None
      else
        var first: Digest := Decode32(texts[0]).value;
        Some([first] + rest.value)
  }

  lemma {:induction false} DecodeAllOfEncode(path: seq<Digest>)
    ensures DecodeAll(EncodeAll(path)) == Some(path)
  {
    if path != [] {
      Decode32OfEncode(path[0]);
      assert EncodeAll(path)[1..] == EncodeAll(path[1..]);
      DecodeAllOfEncode(path[1..]);
      assert path == [path[0]] + path[1..];
    }
  }

  /** `verify_audit_path` on the hex fields of a predicate. */
  predicate HexAccepts(H: Hasher, root: Digest, leafHash: Text, leafIndex: nat, treeSize: nat, auditPath: seq<Text>) {
    && Decode32(leafHash).Ok?
    && DecodeAll(auditPath).Some?
    && Accepts(H, root, Decode32(leafHash).value, leafIndex, treeSize, DecodeAll(auditPath).value)
  }

  // ------------------------------------------------------------------------
  // Inclusion
  // ------------------------------------------------------------------------

  predicate ChecksInclusion(H: Hasher, root: Digest, p: InclusionProof) {
    && p.Validates()
    && Decode32(p.merkleRoot) == Ok(root)
    && HexAccepts(H, root, p.leafHash, p.leafIndex, p.treeSize, p.auditPath)
  }

  lemma EmittedInclusionChecks(H: Hasher, entries: seq<ManifestEntry>, i: nat, evidence: MatchEvidence)
    requires i < |entries|
    ensures var r := EmitInclusion(H, entries, i, evidence);
            && r.Ok? && r.value.Inclusion?
            && ChecksInclusion(H, MTH(H, DocumentIds(entries)), r.value.inclusion)
            && r.value.inclusion.leafIndex == i && r.value.inclusion.treeSize == |entries|
            && r.value.inclusion.leafHash == Encode(entries[i].documentId)
  {
    var ids := DocumentIds(entries);
    AuditPathAccepted(H, i, ids);
    Decode32OfEncode(MTH(H, ids));
    Decode32OfEncode(ids[i]);
    DecodeAllOfEncode(PATH(H, i, ids));
  }

  /** The digest a target asks for in each column. */
  function WantedBlake3(target: ProofTarget): Option<Digest> {
    match target
    case Blake3(d) => Some(d)
    case Sha256(_) => None
    case Bundle(b, _) => if Decode32(b).Ok? then Some(Decode32(b).value) else None
  }

  function WantedSha256(target: ProofTarget): Option<Digest> {
    match target
    case Blake3(_) => None
    case Sha256(s) => Some(s)
    case Bundle(_, s) => if Decode32(s).Ok? then Some(Decode32(s).value) else None
  }

  lemma InclusionCameFromAMatch(H: Hasher, target: ProofTarget, entries: seq<ManifestEntry>)
    requires ProveTarget(H, target, entries).Ok? && ProveTarget(H, target, entries).value.Inclusion?
    ensures var m := FindExactMatch(entries, WantedBlake3(target), WantedSha256(target));
            && m.Ok? && m.value.Some?
            && ProveTarget(H, target, entries) == EmitInclusion(H, entries, m.value.value.0, m.value.value.1)
  {
  }

  /** Completeness of inclusion: an emitted proof passes the check, for a row that holds the
      target in the column the evidence names. */
  lemma InclusionComplete(H: Hasher, target: ProofTarget, entries: seq<ManifestEntry>)
    requires ProveTarget(H, target, entries).Ok? && ProveTarget(H, target, entries).value.Inclusion?
    ensures var p := ProveTarget(H, target, entries).value.inclusion;
            && ChecksInclusion(H, MTH(H, DocumentIds(entries)), p)
            && p.leafIndex < |entries| == p.treeSize
            && p.leafHash == Encode(entries[p.leafIndex].documentId)
            && match p.evidence
               case ExactBlake3 => WantedBlake3(target) == Some(entries[p.leafIndex].documentId)
               case ExactSha256 => WantedSha256(target) == Some(entries[p.leafIndex].sha256)
  {
    InclusionCameFromAMatch(H, target, entries);
    ExactMatchIsAHit(entries, WantedBlake3(target), WantedSha256(target));
    var hit := FindExactMatch(entries, WantedBlake3(target), WantedSha256(target)).value.value;
    EmittedInclusionChecks(H, entries, hit.0, hit.1);
  }

  /** A checked inclusion proof against the root of D shows its leaf in D, or a collision. */
  function InclusionProofCollision(H: Hasher, D: seq<Digest>, p: InclusionProof): (c: Option<Collision>)
    requires ChecksInclusion(H, MTH(H, D), p)
    ensures c.None? ==> Decode32(p.leafHash).value in D
    ensures c.None? && p.treeSize == |D| ==> Decode32(p.leafHash).value == D[p.leafIndex]
    ensures c.Some? ==> IsCollision(H, c.value)
  {
    InclusionCollision(H, D, Decode32(p.leafHash).value, p.leafIndex, p.treeSize, DecodeAll(p.auditPath).value)
  }

  // ------------------------------------------------------------------------
  // Non-inclusion
  // ------------------------------------------------------------------------

  /** The neighbour is a leaf at its index, and its ordering key is that leaf's lowercase hex. */
  predicate ChecksNeighbor(H: Hasher, root: Digest, treeSize: nat, n: Neighbor) {
    && HexAccepts(H, root, n.leafHash, n.leafIndex, treeSize, n.auditPath)
    && n.orderingKey == Encode(Decode32(n.leafHash).value)
  }

  predicate ChecksNonInclusion(H: Hasher, root: Digest, p: NonInclusionProof) {
    && p.Validates()
    && Decode32(p.merkleRoot) == Ok(root)
    && match p.boundaryCase
       case InteriorCase =>
         && ChecksNeighbor(H, root, p.treeSize, p.left.value)
         && ChecksNeighbor(H, root, p.treeSize, p.right.value)
         && p.left.value.leafIndex + 1 == p.right.value.leafIndex
         && LexLess(p.left.value.orderingKey, p.queryKey)
         && LexLess(p.queryKey, p.right.value.orderingKey)
       case BeforeFirstCase =>
         && ChecksNeighbor(H, root, p.treeSize, p.right.value)
         && p.right.value.leafIndex == 0
         && LexLess(p.queryKey, p.right.value.orderingKey)
       case AfterLastCase =>
         && ChecksNeighbor(H, root, p.treeSize, p.left.value)
         && p.left.value.leafIndex == p.treeSize - 1
         && LexLess(p.left.value.orderingKey, p.queryKey)
  }

  lemma NeighborChecks(H: Hasher, ids: seq<Digest>, i: nat)
    requires i < |ids|
    ensures BuildNeighbor(H, ids, i).Ok?
    ensures ChecksNeighbor(H, MTH(H, ids), |ids|, BuildNeighbor(H, ids, i).value)
    ensures BuildNeighbor(H, ids, i).value.orderingKey == Encode(ids[i])
  {
    AuditPathAccepted(H, i, ids);
    Decode32OfEncode(ids[i]);
    DecodeAllOfEncode(PATH(H, i, ids));
  }

  /** A placed query yields a predicate that checks: the two neighbours bracket it. */
  lemma PlacedAbsenceChecks(H: Hasher, d: Digest, ids: seq<Digest>, c: BoundaryCase, l: nat, h: nat)
    requires ids != [] && l < |ids| && h < |ids|
    requires c.InteriorCase? ==> h == l + 1
    requires c.BeforeFirstCase? ==> h == 0
    requires c.AfterLastCase? ==> l == |ids| - 1
    requires !c.BeforeFirstCase? ==> LexLess(ids[l], d)
    requires !c.AfterLastCase? ==> LexLess(d, ids[h])
    ensures var left := if c.BeforeFirstCase? then None else Some(BuildNeighbor(H, ids, l).value);
            var right := if c.AfterLastCase? then None else Some(BuildNeighbor(H, ids, h).value);
            var r := EmitAbsence(H, ids, d, c, left, right);
            r.Ok? && r.value.absence.queryKey == Encode(d) && r.value.absence.treeSize == |ids|
            && r.value.absence.proofType == "non-inclusion" && r.value.absence.merkleRoot == Encode(MTH(H, ids))
            && ChecksNonInclusion(H, MTH(H, ids), r.value.absence)
  {
    Decode32OfEncode(MTH(H, ids));
    NeighborChecks(H, ids, l);
    NeighborChecks(H, ids, h);
    EncodePreservesOrder(ids[l], d);
    EncodePreservesOrder(d, ids[h]);
  }

  lemma DispatchedAbsenceChecks(H: Hasher, d: Digest, entries: seq<ManifestEntry>)
    requires SortedManifest(entries) && entries != [] && d !in DocumentIds(entries)
    ensures var r := DispatchNonInclusion(H, d, entries);
            && r.Ok? && r.value.NonInclusion?
            && r.value.absence.queryKey == Encode(d) && r.value.absence.treeSize == |entries|
            && r.value.absence.proofType == "non-inclusion"
            && r.value.absence.merkleRoot == Encode(MTH(H, DocumentIds(entries)))
            && ChecksNonInclusion(H, MTH(H, DocumentIds(entries)), r.value.absence)
  {
    var ids := DocumentIds(entries);
    AdjacencyIsExact(ids, d);
    match FindAdjacentLeaves(ids, d)
    case Interior(l, h) => PlacedAbsenceChecks(H, d, ids, InteriorCase, l, h);
    case BeforeFirst(h) => PlacedAbsenceChecks(H, d, ids, BeforeFirstCase, h, h);
    case AfterLast(l) => PlacedAbsenceChecks(H, d, ids, AfterLastCase, l, l);
  }

  /** Completeness: on a sorted manifest the predicate emitted for an absent digest passes
      every check, and carries the query's lowercase hex. */
  lemma NonInclusionComplete(H: Hasher, d: Digest, entries: seq<ManifestEntry>)
    requires SortedManifest(entries) && entries != [] && d !in DocumentIds(entries)
    ensures var r := ProveTarget(H, Blake3(d), entries);
            && r.Ok? && r.value.NonInclusion?
            && r.value.absence.queryKey == Encode(d) && r.value.absence.treeSize == |entries|
            && r.value.absence.proofType == "non-inclusion"
            && r.value.absence.merkleRoot == Encode(MTH(H, DocumentIds(entries)))
            && ChecksNonInclusion(H, MTH(H, DocumentIds(entries)), r.value.absence)
  {
    HitsCountOccurrences(DocumentIds(entries), d);
    assert d !in multiset(DocumentIds(entries));
    assert FindExactMatch(entries, Some(d), None) == Ok(None);
    DispatchedAbsenceChecks(H, d, entries);
  }

  /** A query between two leaves that follow one another, or before the first leaf, or after
      the last, is not in an ascending list. */
  lemma BracketedIsAbsent(D: seq<Digest>, q: Digest, left: Digest, right: Digest)
    requires AscendingDigests(D) && FollowsIn(D, left, right)
    requires LexLess(Encode(left), Encode(q)) && LexLess(Encode(q), Encode(right))
    ensures q !in D
  {
    var j :| 0 <= j < |D| - 1 && D[j] == left && D[j + 1] == right;
    EncodePreservesOrder(left, q);
    EncodePreservesOrder(q, right);
    PlacedIsAbsent(D, q, AdjacencyResult.Interior(j, j + 1));
  }

  lemma OutsideIsAbsent(D: seq<Digest>, q: Digest)
    requires AscendingDigests(D) && D != []
    requires LexLess(Encode(q), Encode(D[0])) || LexLess(Encode(D[|D| - 1]), Encode(q))
    ensures q !in D
  {
    EncodePreservesOrder(q, D[0]);
    EncodePreservesOrder(D[|D| - 1], q);
    PlacedIsAbsent(D, q, if LexLess(q, D[0]) then BeforeFirst(0) else AfterLast(|D| - 1));
  }

  /** What the proof of a neighbour collides with, if its leaf is not in the tree. */
  function NeighborCollision(H: Hasher, D: seq<Digest>, treeSize: nat, n: Neighbor): (c: Option<Collision>)
    requires ChecksNeighbor(H, MTH(H, D), treeSize, n)
    ensures c == InclusionCollision(H, D, Decode32(n.leafHash).value, n.leafIndex, treeSize,
                                    DecodeAll(n.auditPath).value)
    ensures c.Some? ==> IsCollision(H, c.value) && c.value.0 in TreeInputs(H, D)
  {
    InclusionCollision(H, D, Decode32(n.leafHash).value, n.leafIndex, treeSize, DecodeAll(n.auditPath).value)
  }

  /** Checked neighbours without a collision bracket the query within D. */
  lemma NeighborsExclude(H: Hasher, D: seq<Digest>, q: Digest, p: NonInclusionProof)
    requires AscendingDigests(D) && p.queryKey == Encode(q) && ChecksNonInclusion(H, MTH(H, D), p)
    requires !p.boundaryCase.BeforeFirstCase? ==> NeighborCollision(H, D, p.treeSize, p.left.value).None?
    requires !p.boundaryCase.AfterLastCase? ==> NeighborCollision(H, D, p.treeSize, p.right.value).None?
    ensures q !in D
  {
    hide MTH, InclusionCollision, LexLess, Encode, AscendingDigests, RootFromPath, FollowsIn;
    var l := if p.boundaryCase.BeforeFirstCase? then p.right.value else p.left.value;
    var h := if p.boundaryCase.AfterLastCase? then p.left.value else p.right.value;
    var left, right := Decode32(l.leafHash).value, Decode32(h.leafHash).value;
    var lp, rp := DecodeAll(l.auditPath).value, DecodeAll(h.auditPath).value;
    match p.boundaryCase
    case InteriorCase =>
      SuccessiveIndices(H, D, left, right, l.leafIndex, p.treeSize, lp, rp);
      BracketedIsAbsent(D, q, left, right);
    case BeforeFirstCase =>
      EndsOfTree(H, D, right, h.leafIndex, p.treeSize, rp);
      OutsideIsAbsent(D, q);
    case AfterLastCase =>
      EndsOfTree(H, D, left, l.leafIndex, p.treeSize, lp);
      OutsideIsAbsent(D, q);
  }

  /** Soundness: a predicate that passes the checks against the root of an ascending list D
      shows the queried digest is not in D, or a collision is computed. Nothing is assumed of
      the size the predicate claims. */
  function NonInclusionCollision(H: Hasher, D: seq<Digest>, q: Digest, p: NonInclusionProof): (c: Option<Collision>)
    requires AscendingDigests(D) && p.queryKey == Encode(q)
    requires ChecksNonInclusion(H, MTH(H, D), p)
    ensures c.None? ==> q !in D
    ensures c.Some? ==> IsCollision(H, c.value) && c.value.0 in TreeInputs(H, D)
  {
    var left := if p.boundaryCase.BeforeFirstCase? then None else NeighborCollision(H, D, p.treeSize, p.left.value);
    var right := if p.boundaryCase.AfterLastCase? then None else NeighborCollision(H, D, p.treeSize, p.right.value);
    if left.Some? then left
    else if right.Some? then right
    else
      NeighborsExclude(H, D, q, p);
      None
  }
}
