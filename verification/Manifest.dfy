/** Manifest rows. The columns that no modelled computation reads (MIME type, domains,
    fetch times, signals, inclusion flags, chunk references) are left out. */
module Manifest {
  import opened Basics
  import opened Ordering

  datatype Modality = Text | Image | Audio | Video | Pdf | Other

  datatype SourceType = Crawl | PublicDataset | PrivateLicensed | User | Synthetic | OtherSource

  datatype ManifestEntry = ManifestEntry(
    documentId: Digest,
    sha256: Digest,
    sizeBytes: nat,
    modality: Modality,
    sourceUrl: Option<string>,
    sourceType: Option<SourceType>,
    sourceDatasetId: Option<string>,
    licenseSpdx: Option<string>,
    language: Option<string>,
    inputOrdinal: nat,
    occurrenceIndex: nat)

  /** The `document_id` column. */
  function DocumentIds(entries: seq<ManifestEntry>): (ids: seq<Digest>)
    ensures |ids| == |entries|
    ensures forall i :: 0 <= i < |ids| ==> ids[i] == entries[i].documentId
  {
    seq(|entries|, i requires 0 <= i < |entries| => entries[i].documentId)
  }

  function SizeOf(e: ManifestEntry): nat {
    e.sizeBytes
  }

  function Sha256s(entries: seq<ManifestEntry>): (ids: seq<Digest>)
    ensures |ids| == |entries|
    ensures forall i :: 0 <= i < |ids| ==> ids[i] == entries[i].sha256
  {
    seq(|entries|, i requires 0 <= i < |entries| => entries[i].sha256)
  }

  predicate DigestLeq(a: Digest, b: Digest) {
    LexLeq(a, b)
  }

  lemma DigestOrder()
    ensures TotalPreorder(DigestLeq)
    ensures forall ids: seq<Digest> :: AntisymmetricOn(DigestLeq, ids)
  {
    forall a: Digest, b: Digest, c: Digest
      ensures DigestLeq(a, b) || DigestLeq(b, a)
      ensures DigestLeq(a, b) && DigestLeq(b, c) ==> DigestLeq(a, c)
      ensures DigestLeq(a, b) && DigestLeq(b, a) ==> a == b
    {
      LexOrder(a, b, c);
    }
  }

  /** Byte-ascending digests; equal neighbours are allowed. */
  ghost predicate AscendingDigests(ids: seq<Digest>) {
    forall i, j :: 0 <= i < j < |ids| ==> LexLeq(ids[i], ids[j])
  }

  ghost predicate SortedManifest(entries: seq<ManifestEntry>) {
    AscendingDigests(DocumentIds(entries))
  }
}
