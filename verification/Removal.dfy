/** Removal evidence: the target proved included before and absent after. */
module Removal {
  import opened Basics
  import opened Hex
  import opened Merkle
  import opened Manifest
  import opened Prove
  import opened ProofChecking

  datatype RemoveError =
    | Before(before: ProveError)
    | After(after: ProveError)
    | TargetNotInBefore
    | TargetStillInAfter

  datatype RemovalReport = RemovalReport(target: Digest, inclusion: Proof, nonInclusion: Proof)

  function BuildRemoval(H: Hasher, target: Digest, before: seq<ManifestEntry>, after: seq<ManifestEntry>)
    : Result<RemovalReport, RemoveError>
  {
    match ProveTarget(H, Blake3(target), before)
    case Err(e) => Err(Before(e))
    case Ok(inclusion) =>
      if !inclusion.Inclusion? then Err(TargetNotInBefore)
      else
        match ProveTarget(H, Blake3(target), after)
        case Err(e) => Err(After(e))
        case Ok(nonInclusion) =>
          if !nonInclusion.NonInclusion? then Err(TargetStillInAfter)
          else Ok(RemovalReport(target, inclusion, nonInclusion))
  }

  /** Removal succeeds exactly when the target occurs once before and never in a non-empty
      after; every failing combination has its own error. */
  lemma RemovalDecides(H: Hasher, target: Digest, before: seq<ManifestEntry>, after: seq<ManifestEntry>)
    ensures var r := BuildRemoval(H, target, before, after);
            var b, a := Occurrences(before, target), Occurrences(after, target);
            && (r.Ok? <==> b == 1 && a == 0 && after != [])
            && (r == Err(TargetNotInBefore) <==> b == 0 && before != [])
            && (r == Err(TargetStillInAfter) <==> b == 1 && a == 1)
            && (r == Err(Before(InvalidManifest(EmptyManifest))) <==> before == [])
            && (r == Err(After(InvalidManifest(EmptyManifest))) <==> b == 1 && after == [])
            && (b >= 2 ==> r == Err(Before(Ambiguous(b))))
            && (b == 1 && a >= 2 ==> r == Err(After(Ambiguous(a))))
  {
    ExactProvingDecides(H, target, before);
    ExactProvingDecides(H, target, after);
    assert before == [] ==> DocumentIds(before) == [];
    assert after == [] ==> DocumentIds(after) == [];
  }

  /** Both halves of a report over sorted manifests are about the target: one names the row of
      before that holds it, the other has its hex as the query over after, and both pass their
      checks against the two roots. */
  lemma ReportChecks(H: Hasher, target: Digest, before: seq<ManifestEntry>, after: seq<ManifestEntry>)
    requires SortedManifest(after)
    requires BuildRemoval(H, target, before, after).Ok?
    ensures var report := BuildRemoval(H, target, before, after).value;
            && report.target == target
            && report.inclusion.Inclusion? && report.nonInclusion.NonInclusion?
            && ChecksInclusion(H, MTH(H, DocumentIds(before)), report.inclusion.inclusion)
            && ChecksNonInclusion(H, MTH(H, DocumentIds(after)), report.nonInclusion.absence)
            && var p, q := report.inclusion.inclusion, report.nonInclusion.absence;
               && p.evidence == ExactBlake3 && p.leafIndex < |before| && before[p.leafIndex].documentId == target
               && p.leafHash == Encode(target) && p.treeSize == p.leafCount == |before|
               && q.queryKey == Encode(target) && q.treeSize == |after|
  {
    RemovalDecides(H, target, before, after);
    Blake3ProvesItsRow(H, target, before);
    InclusionComplete(H, Blake3(target), before);
    assert target in DocumentIds(after) ==> target in multiset(DocumentIds(after));
    NonInclusionComplete(H, target, after);
  }
}
