/** What the diff report's entries say, of the rows and their ids themselves. */
module DiffMeaning {
  import opened Basics
  import opened Ordering
  import opened Manifest
  import opened Merkle
  import opened DiffSpec
  import opened Diff
  import Hex

  // ------------------------------------------------------------------------
  // The delta
  // ------------------------------------------------------------------------

  /** Given the added, removed and shifted ids in ascending order, the delta has the numbers of the
      first two and of the common ids, and as examples the first sixteen of each, the shifted ones
      with how often they occur before and after. */
  lemma DeltaMeans(a: seq<Digest>, b: seq<Digest>, added: seq<Digest>, removed: seq<Digest>, shifted: seq<Digest>)
    requires StrictlyAscending(added) && forall d :: d in added <==> d in b && d !in a
    requires StrictlyAscending(removed) && forall d :: d in removed <==> d in a && d !in b
    requires StrictlyAscending(shifted)
    requires forall d :: d in shifted <==> d in a && d in b && multiset(a)[d] != multiset(b)[d]
    ensures var delta := DeltaOf(a, b);
            && delta.added == |added| && delta.removed == |removed|
            && delta.inBoth == |set d | d in a && d in b|
            && |delta.addedExamples| == (if |added| < 16 then |added| else 16)
            && |delta.removedExamples| == (if |removed| < 16 then |removed| else 16)
            && |delta.multisetShifts| == (if |shifted| < 16 then |shifted| else 16)
            && (forall i :: 0 <= i < |delta.addedExamples| ==> delta.addedExamples[i] == Hex.Encode(added[i]))
            && (forall i :: 0 <= i < |delta.removedExamples| ==> delta.removedExamples[i] == Hex.Encode(removed[i]))
            && (forall i :: 0 <= i < |delta.multisetShifts| ==>
                 delta.multisetShifts[i] ==
                 MultisetShift(Hex.Encode(shifted[i]), multiset(a)[shifted[i]], multiset(b)[shifted[i]]))
  {
    hide StrictlyAscending, InOrder, Capped, HexAll, ShiftsAt;
    HexExamples(added);
    HexExamples(removed);
    ShiftExamples(shifted, a, b);
    AscendingListUnique(added, InOrder(ToSet(b) - ToSet(a)));
    AscendingListUnique(removed, InOrder(ToSet(a) - ToSet(b)));
    AscendingListUnique(shifted, InOrder(Shifted(a, b)));
    AscendingSize(added);
    AscendingSize(removed);
    assert ToSet(a) * ToSet(b) == set d | d in a && d in b;
  }

  lemma HexExamples(ids: seq<Digest>)
    ensures var e := Capped(HexAll(ids));
            && |e| == (if |ids| < 16 then |ids| else 16)
            && forall i :: 0 <= i < |e| ==> e[i] == Hex.Encode(ids[i])
  {
  }

  lemma ShiftExamples(ids: seq<Digest>, a: seq<Digest>, b: seq<Digest>)
    ensures var e := Capped(ShiftsAt(ids, a, b));
            && |e| == (if |ids| < 16 then |ids| else 16)
            && forall i :: 0 <= i < |e| ==>
                 e[i] == MultisetShift(Hex.Encode(ids[i]), multiset(a)[ids[i]], multiset(b)[ids[i]])
  {
  }

  // ------------------------------------------------------------------------
  // The summaries
  // ------------------------------------------------------------------------

  /** How often a histogram has seen a label. */
  function Seen(h: Histogram, l: string): nat {
    if l in h then h[l] else 0
  }

  lemma {:induction false} CountsPositions(s: seq<string>, l: string)
    ensures multiset(s)[l] == |set i: nat | i < |s| && s[i] == l|
  {
    var all := set i: nat | i < |s| && s[i] == l;
    if s == [] {
      assert all == {};
    } else {
      var n: nat := |s| - 1;
      CountsPositions(s[..n], l);
      assert s == s[..n] + [s[n]];
      LastPosition(s, l, n);
    }
  }

  lemma LastPosition(s: seq<string>, l: string, n: nat)
    requires n + 1 == |s|
    ensures |set i: nat | i < |s| && s[i] == l| ==
            |set i: nat | i < |s[..n]| && s[..n][i] == l| + if s[n] == l then 1 else 0
  {
    var front, all := set i: nat | i < |s[..n]| && s[..n][i] == l, set i: nat | i < |s| && s[i] == l;
    assert all == front + (if s[n] == l then {n} else {});
  }

  lemma SeenCounts(labelOf: ManifestEntry -> string, rows: seq<ManifestEntry>, l: string, where: set<nat>)
    requires forall i: nat :: i in where <==> i < |rows| && labelOf(rows[i]) == l
    ensures Seen(HistogramBy(labelOf, rows), l) == |where|
    ensures l in HistogramBy(labelOf, rows) <==> where != {}
  {
    HistogramCounts(labelOf, rows, l);
    var labels := Labels(labelOf, rows);
    CountsPositions(labels, l);
    assert where == set i: nat | i < |labels| && labels[i] == l;
    if l in labels {
      var i: nat :| i < |labels| && labels[i] == l;
      assert i in where;
    }
    if i: nat :| i in where {
      assert labels[i] == l;
    }
  }

  function Modalities(rows: seq<ManifestEntry>, m: Modality): set<nat> {
    set i: nat | i < |rows| && rows[i].modality == m
  }

  function SourceTypes(rows: seq<ManifestEntry>, t: Option<SourceType>): set<nat> {
    set i: nat | i < |rows| && rows[i].sourceType == t
  }

  /** Rows with this text in a column; those without any count as "(unspecified)". */
  function WithText(rows: seq<ManifestEntry>, column: ManifestEntry -> Option<string>, l: string): set<nat> {
    set i: nat | i < |rows| && (column(rows[i]) == Some(l) || (column(rows[i]).None? && l == "(unspecified)"))
  }

  /** What a summary says of the rows it is of. */
  lemma SummaryMeans(H: Hasher, rows: seq<ManifestEntry>, distinct: nat)
    ensures var v := SummaryOf(H, rows, distinct);
            && v.merkleRoot == Hex.Encode(MTH(H, DocumentIds(rows)))
            && v.documents == |rows| && v.distinctDocuments == distinct
            && v.exactDuplicateDocuments == |rows| - distinct
            && v.totalBytes == SumOf((e: ManifestEntry) => e.sizeBytes, rows)
    ensures var h := SummaryOf(H, rows, distinct).byModality;
            && Seen(h, "text") == |Modalities(rows, Text)| && Seen(h, "image") == |Modalities(rows, Image)|
            && Seen(h, "audio") == |Modalities(rows, Audio)| && Seen(h, "video") == |Modalities(rows, Video)|
            && Seen(h, "pdf") == |Modalities(rows, Pdf)| && Seen(h, "other") == |Modalities(rows, Modality.Other)|
    ensures var h := SummaryOf(H, rows, distinct).bySourceType;
            && Seen(h, "crawl") == |SourceTypes(rows, Some(Crawl))|
            && Seen(h, "public_dataset") == |SourceTypes(rows, Some(PublicDataset))|
            && Seen(h, "private_licensed") == |SourceTypes(rows, Some(PrivateLicensed))|
            && Seen(h, "user") == |SourceTypes(rows, Some(User))|
            && Seen(h, "synthetic") == |SourceTypes(rows, Some(Synthetic))|
            && Seen(h, "other") == |SourceTypes(rows, Some(OtherSource))|
            && Seen(h, "(unspecified)") == |SourceTypes(rows, None)|
    ensures var v := SummaryOf(H, rows, distinct);
            forall l ::
              && Seen(v.bySourceDatasetId, l) == |WithText(rows, (e: ManifestEntry) => e.sourceDatasetId, l)|
              && Seen(v.byLicenseSpdx, l) == |WithText(rows, (e: ManifestEntry) => e.licenseSpdx, l)|
              && Seen(v.byLanguage, l) == |WithText(rows, (e: ManifestEntry) => e.language, l)|
  {
    hide HistogramBy, MTH, Seen, SumOf, ModalityLabel, SourceTypeLabel, DatasetLabel, LicenseLabel, LanguageLabel,
         Modalities, SourceTypes, WithText;
    SumOfEqual(SizeOf, (e: ManifestEntry) => e.sizeBytes, rows);
    ModalitiesSeen(rows);
    SourceTypesSeen(rows);
    TextsSeen(rows);
  }

  lemma TextsSeen(rows: seq<ManifestEntry>)
    ensures forall l ::
              && Seen(HistogramBy(DatasetLabel, rows), l) ==
                 |WithText(rows, (e: ManifestEntry) => e.sourceDatasetId, l)|
              && Seen(HistogramBy(LicenseLabel, rows), l) == |WithText(rows, (e: ManifestEntry) => e.licenseSpdx, l)|
              && Seen(HistogramBy(LanguageLabel, rows), l) == |WithText(rows, (e: ManifestEntry) => e.language, l)|
  {
    hide HistogramBy, Seen;
    forall l
      ensures Seen(HistogramBy(DatasetLabel, rows), l) ==
                |WithText(rows, (e: ManifestEntry) => e.sourceDatasetId, l)|
      ensures Seen(HistogramBy(LicenseLabel, rows), l) == |WithText(rows, (e: ManifestEntry) => e.licenseSpdx, l)|
      ensures Seen(HistogramBy(LanguageLabel, rows), l) == |WithText(rows, (e: ManifestEntry) => e.language, l)|
    {
      SeenCounts(DatasetLabel, rows, l, WithText(rows, (e: ManifestEntry) => e.sourceDatasetId, l));
      SeenCounts(LicenseLabel, rows, l, WithText(rows, (e: ManifestEntry) => e.licenseSpdx, l));
      SeenCounts(LanguageLabel, rows, l, WithText(rows, (e: ManifestEntry) => e.language, l));
    }
  }

  lemma ModalitySeen(rows: seq<ManifestEntry>, l: string, m: Modality)
    requires forall e: ManifestEntry :: ModalityLabel(e) == l <==> e.modality == m
    ensures Seen(HistogramBy(ModalityLabel, rows), l) == |Modalities(rows, m)|
  {
    hide ModalityLabel, Seen, HistogramBy;
    SeenCounts(ModalityLabel, rows, l, Modalities(rows, m));
  }

  lemma SourceTypeSeen(rows: seq<ManifestEntry>, l: string, t: Option<SourceType>)
    requires forall e: ManifestEntry :: SourceTypeLabel(e) == l <==> e.sourceType == t
    ensures Seen(HistogramBy(SourceTypeLabel, rows), l) == |SourceTypes(rows, t)|
  {
    hide SourceTypeLabel, Seen, HistogramBy;
    SeenCounts(SourceTypeLabel, rows, l, SourceTypes(rows, t));
  }

  lemma ModalitiesSeen(rows: seq<ManifestEntry>)
    ensures var h := HistogramBy(ModalityLabel, rows);
            && Seen(h, "text") == |Modalities(rows, Text)| && Seen(h, "image") == |Modalities(rows, Image)|
            && Seen(h, "audio") == |Modalities(rows, Audio)| && Seen(h, "video") == |Modalities(rows, Video)|
            && Seen(h, "pdf") == |Modalities(rows, Pdf)| && Seen(h, "other") == |Modalities(rows, Modality.Other)|
  {
    hide HistogramBy, Seen, Modalities;
    ModalitySeen(rows, "text", Text);
    ModalitySeen(rows, "image", Image);
    ModalitySeen(rows, "audio", Audio);
    ModalitySeen(rows, "video", Video);
    ModalitySeen(rows, "pdf", Pdf);
    ModalitySeen(rows, "other", Modality.Other);
  }

  lemma SourceTypesSeen(rows: seq<ManifestEntry>)
    ensures var h := HistogramBy(SourceTypeLabel, rows);
            && Seen(h, "crawl") == |SourceTypes(rows, Some(Crawl))|
            && Seen(h, "public_dataset") == |SourceTypes(rows, Some(PublicDataset))|
            && Seen(h, "private_licensed") == |SourceTypes(rows, Some(PrivateLicensed))|
            && Seen(h, "user") == |SourceTypes(rows, Some(User))|
            && Seen(h, "synthetic") == |SourceTypes(rows, Some(Synthetic))|
            && Seen(h, "other") == |SourceTypes(rows, Some(OtherSource))|
            && Seen(h, "(unspecified)") == |SourceTypes(rows, None)|
  {
    hide HistogramBy, Seen, SourceTypes;
    SourceTypeSeen(rows, "crawl", Some(Crawl));
    SourceTypeSeen(rows, "public_dataset", Some(PublicDataset));
    SourceTypeSeen(rows, "private_licensed", Some(PrivateLicensed));
    SourceTypeSeen(rows, "user", Some(User));
    SourceTypeSeen(rows, "synthetic", Some(Synthetic));
    SourceTypeSeen(rows, "other", Some(OtherSource));
    SourceTypeSeen(rows, "(unspecified)", None);
  }
}
