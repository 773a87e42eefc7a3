/** `compare`: a single pass over two canonically sorted streams. */
module Diff {
  import opened Basics
  import opened Ordering
  import opened Manifest
  import opened Merkle
  import opened DiffSpec
  import Hex

  const MAX_EXAMPLES: nat := 16
  const UNSPECIFIED := "(unspecified)"

  type Histogram = map<string, nat>

  datatype VersionSummary = VersionSummary(
    merkleRoot: Hex.Text,
    documents: nat,
    distinctDocuments: nat,
    exactDuplicateDocuments: int,
    totalBytes: nat,
    byModality: Histogram,
    bySourceType: Histogram,
    bySourceDatasetId: Histogram,
    byLicenseSpdx: Histogram,
    byLanguage: Histogram)

  datatype MultisetShift = MultisetShift(documentId: Hex.Text, oldCount: nat, newCount: nat)

  datatype Delta = Delta(
    added: nat,
    removed: nat,
    inBoth: nat,
    addedExamples: seq<Hex.Text>,
    removedExamples: seq<Hex.Text>,
    multisetShifts: seq<MultisetShift>)

  datatype DiffReport = DiffReport(timestamp: Option<string>, before: VersionSummary, after: VersionSummary,
                                   delta: Delta)

  // ------------------------------------------------------------------------
  // Histograms
  // ------------------------------------------------------------------------

  function ModalityLabel(e: ManifestEntry): string {
    match e.modality
    case Text => "text"
    case Image => "image"
    case Audio => "audio"
    case Video => "video"
    case Pdf => "pdf"
    case Other => "other"
  }

  function SourceTypeLabel(e: ManifestEntry): string {
    match e.sourceType
    case None => UNSPECIFIED
    case Some(Crawl) => "crawl"
    case Some(PublicDataset) => "public_dataset"
    case Some(PrivateLicensed) => "private_licensed"
    case Some(User) => "user"
    case Some(Synthetic) => "synthetic"
    case Some(OtherSource) => "other"
  }

  function OptLabel(v: Option<string>): string {
    if v.Some? then v.value else UNSPECIFIED
  }

  function DatasetLabel(e: ManifestEntry): string {
    OptLabel(e.sourceDatasetId)
  }

  function LicenseLabel(e: ManifestEntry): string {
    OptLabel(e.licenseSpdx)
  }

  function LanguageLabel(e: ManifestEntry): string {
    OptLabel(e.language)
  }

  function Bump(h: Histogram, l: string): Histogram {
    h[l := (if l in h then h[l] else 0) + 1]
  }

  /** One bump per row. */
  function HistogramBy(labelOf: ManifestEntry -> string, rows: seq<ManifestEntry>): Histogram {
    if rows == [] then map[] else Bump(HistogramBy(labelOf, rows[..|rows| - 1]), labelOf(rows[|rows| - 1]))
  }

  function Labels(labelOf: ManifestEntry -> string, rows: seq<ManifestEntry>): (labels: seq<string>)
    ensures |labels| == |rows|
  {
    seq(|rows|, i requires 0 <= i < |rows| => labelOf(rows[i]))
  }

  /** A histogram holds for each label that occurs how often it does, and no other label. */
  lemma {:induction false} HistogramCounts(labelOf: ManifestEntry -> string, rows: seq<ManifestEntry>, l: string)
    ensures var h, labels := HistogramBy(labelOf, rows), Labels(labelOf, rows);
            (l in h <==> l in labels) && (l in h ==> h[l] == multiset(labels)[l])
  {
    if rows != [] {
      var n := |rows| - 1;
      HistogramCounts(labelOf, rows[..n], l);
      assert Labels(labelOf, rows) == Labels(labelOf, rows[..n]) + [labelOf(rows[n])];
    }
  }

  ghost function Total(h: Histogram): nat
    decreases |h|
  {
    if h == map[] then 0
    else
      var l :| l in h;
      h[l] + Total(h - {l})
  }

  /** A total may be taken starting from any label. */
  lemma {:induction false} TotalFrom(h: Histogram, l: string)
    requires l in h
    ensures Total(h) == h[l] + Total(h - {l})
    decreases |h|
  {
    var k :| k in h && Total(h) == h[k] + Total(h - {k});
    if k != l {
      TotalFrom(h - {k}, l);
      TotalFrom(h - {l}, k);
      assert h - {k} - {l} == h - {l} - {k};
    }
  }

  /** Conservation: every histogram sums to the number of rows. */
  lemma {:induction false} HistogramTotal(labelOf: ManifestEntry -> string, rows: seq<ManifestEntry>)
    ensures Total(HistogramBy(labelOf, rows)) == |rows|
  {
    if rows != [] {
      var n := |rows| - 1;
      HistogramTotal(labelOf, rows[..n]);
      var h, l := HistogramBy(labelOf, rows[..n]), labelOf(rows[n]);
      TotalFrom(Bump(h, l), l);
      if l in h {
        TotalFrom(h, l);
        assert Bump(h, l) - {l} == h - {l};
      } else {
        assert Bump(h, l) - {l} == h;
      }
    }
  }

  // ------------------------------------------------------------------------
  // The per-version accumulator
  // ------------------------------------------------------------------------

  /** The summary of a version with these rows. */
  ghost function SummaryOf(H: Hasher, rows: seq<ManifestEntry>, distinct: nat): VersionSummary {
    VersionSummary(Hex.Encode(MTH(H, DocumentIds(rows))), |rows|, distinct, |rows| - distinct, SumOf(SizeOf, rows),
                   HistogramBy(ModalityLabel, rows), HistogramBy(SourceTypeLabel, rows),
                   HistogramBy(DatasetLabel, rows),
                   HistogramBy(LicenseLabel, rows), HistogramBy(LanguageLabel, rows))
  }

  /** The accumulator's value, the distinct count aside. */
  datatype Tally = Tally(
    documents: nat,
    totalBytes: nat,
    leaves: seq<Digest>,
    byModality: Histogram,
    bySourceType: Histogram,
    bySourceDatasetId: Histogram,
    byLicenseSpdx: Histogram,
    byLanguage: Histogram)

  ghost function TallyOf(rows: seq<ManifestEntry>): Tally {
    Tally(|rows|, SumOf(SizeOf, rows), DocumentIds(rows), HistogramBy(ModalityLabel, rows),
          HistogramBy(SourceTypeLabel, rows), HistogramBy(DatasetLabel, rows), HistogramBy(LicenseLabel, rows),
          HistogramBy(LanguageLabel, rows))
  }

  ghost function AddRow(t: Tally, e: ManifestEntry): Tally {
    Tally(t.documents + 1, t.totalBytes + e.sizeBytes, t.leaves + [e.documentId], Bump(t.byModality, ModalityLabel(e)),
          Bump(t.bySourceType, SourceTypeLabel(e)), Bump(t.bySourceDatasetId, DatasetLabel(e)),
          Bump(t.byLicenseSpdx, LicenseLabel(e)), Bump(t.byLanguage, LanguageLabel(e)))
  }

  lemma TallyOneMore(rows: seq<ManifestEntry>, e: ManifestEntry)
    ensures TallyOf(rows + [e]) == AddRow(TallyOf(rows), e)
  {
    SumOfAppend(SizeOf, rows, [e]);
    SumOfOne(SizeOf, e);
    assert DocumentIds(rows + [e]) == DocumentIds(rows) + [e.documentId];
  }

  lemma RowsOneMore(items: seq<Item>, pos: nat)
    requires pos < |items| && AllOk(items[..pos]) && items[pos].Ok?
    ensures AllOk(items[..pos + 1]) && Rows(items[..pos + 1]) == Rows(items[..pos]) + [items[pos].value]
  {
  }

  class Summary {
    var documents: nat
    var distinctDocuments: nat
    var totalBytes: nat
    var leaves: seq<Digest>
    var byModality: Histogram
    var bySourceType: Histogram
    var bySourceDatasetId: Histogram
    var byLicenseSpdx: Histogram
    var byLanguage: Histogram

    ghost function Value(): Tally
      reads this
    {
      Tally(documents, totalBytes, leaves, byModality, bySourceType, bySourceDatasetId, byLicenseSpdx, byLanguage)
    }

    constructor ()
      ensures Value() == TallyOf([]) && distinctDocuments == 0
    {
      documents, distinctDocuments, totalBytes, leaves := 0, 0, 0, [];
      byModality, bySourceType, bySourceDatasetId, byLicenseSpdx, byLanguage := map[], map[], map[], map[], map[];
    }

    method FoldRow(e: ManifestEntry)
      modifies this
      ensures Value() == AddRow(old(Value()), e) && distinctDocuments == old(distinctDocuments)
    {
      hide Bump, ModalityLabel, SourceTypeLabel, DatasetLabel, LicenseLabel, LanguageLabel;
      documents := documents + 1;
      totalBytes := totalBytes + e.sizeBytes;
      leaves := leaves + [e.documentId];
      byModality := Bump(byModality, ModalityLabel(e));
      bySourceType := Bump(bySourceType, SourceTypeLabel(e));
      bySourceDatasetId := Bump(bySourceDatasetId, DatasetLabel(e));
      byLicenseSpdx := Bump(byLicenseSpdx, LicenseLabel(e));
      byLanguage := Bump(byLanguage, LanguageLabel(e));
    }

    method Finish(H: Hasher, ghost rows: seq<ManifestEntry>) returns (v: VersionSummary)
      requires Value() == TallyOf(rows)
      ensures v == SummaryOf(H, rows, distinctDocuments)
    {
      var root := MerkleRoot(H, leaves);
      v := VersionSummary(Hex.Encode(root), documents, distinctDocuments, documents - distinctDocuments, totalBytes,
                          byModality, bySourceType, bySourceDatasetId, byLicenseSpdx, byLanguage);
    }
  }

  // ------------------------------------------------------------------------
  // The group reader
  // ------------------------------------------------------------------------

  /** The stream with its read position, the accumulator it owns and the last group's id. */
  class GroupReader {
    const items: seq<Item>
    const acc: Summary
    var pos: nat
    var lastId: Option<Digest>

    ghost predicate Valid()
      reads this, acc
    {
      pos <= |items| && AllOk(items[..pos]) && acc.Value() == TallyOf(Rows(items[..pos]))
    }

    constructor (items: seq<Item>)
      ensures Valid() && fresh(acc)
      ensures this.items == items && pos == 0 && lastId == None && acc.distinctDocuments == 0
    {
      this.items := items;
      this.acc := new Summary();
      this.pos := 0;
      this.lastId := None;
      new;
      assert Rows(items[..0]) == [];
    }

    method NextGroup() returns (r: Result<Option<Group>, DiffError>)
      requires Valid()
      modifies this, acc
      ensures r == FirstGroup(items[old(pos)..], old(lastId))
      ensures r.Ok? ==> Valid()
      ensures r.Ok? && r.value.Some? ==>
                && pos == old(pos) + r.value.value.count
                && lastId == Some(r.value.value.id)
                && acc.distinctDocuments == old(acc.distinctDocuments) + 1
      ensures r == Ok(None) ==>
                pos == old(pos) && lastId == old(lastId) && acc.distinctDocuments == old(acc.distinctDocuments)
    {
      hide LexLess, TallyOf;
      if pos == |items| {
        return Ok(None);
      }
      if items[pos].Err? {
        return Err(items[pos].error);
      }
      var groupId := items[pos].value.documentId;
      if lastId.Some? && LexLess(groupId, lastId.value) {
        return Err(Unsorted(groupId, lastId.value));
      }
      var count := ReadRun(groupId);
      if pos < |items| && items[pos].Err? {
        return Err(items[pos].error);
      }
      acc.distinctDocuments := acc.distinctDocuments + 1;
      lastId := Some(groupId);
      return Ok(Some(Group(groupId, count)));
    }

    /** The inner loop: fold the rows of one id, up to the next id, error or end. */
    method ReadRun(groupId: Digest) returns (count: nat)
      requires Valid()
      modifies this, acc
      ensures Valid() && lastId == old(lastId) && acc.distinctDocuments == old(acc.distinctDocuments)
      ensures count == RunLength(items[old(pos)..], groupId) && pos == old(pos) + count
    {
      hide TallyOf, AddRow, RunLength;
      count := 0;
      while pos < |items| && items[pos].Ok? && items[pos].value.documentId == groupId
        invariant Valid() && lastId == old(lastId) && acc.distinctDocuments == old(acc.distinctDocuments)
        invariant count + RunLength(items[pos..], groupId) == RunLength(items[old(pos)..], groupId)
        invariant pos == old(pos) + count
        decreases |items| - pos
      {
        RowsOneMore(items, pos);
        TallyOneMore(Rows(items[..pos]), items[pos].value);
        acc.FoldRow(items[pos].value);
        pos := pos + 1;
        count := count + 1;
      }
    }
  }

  // ------------------------------------------------------------------------
  // What the delta says
  // ------------------------------------------------------------------------

  /** The first sixteen. */
  function Capped<T>(s: seq<T>): (r: seq<T>) {
    if |s| <= MAX_EXAMPLES then s else s[..MAX_EXAMPLES]
  }

  function HexAll(ids: seq<Digest>): (texts: seq<Hex.Text>)
    ensures |texts| == |ids|
  {
    seq(|ids|, i requires 0 <= i < |ids| => Hex.Encode(ids[i]))
  }

  /** The ids on both sides whose number of occurrences differs. */
  ghost function Shifted(a: seq<Digest>, b: seq<Digest>): set<Digest> {
    set d | d in ToSet(a) * ToSet(b) && multiset(a)[d] != multiset(b)[d]
  }

  ghost function ShiftsAt(ids: seq<Digest>, a: seq<Digest>, b: seq<Digest>): (shifts: seq<MultisetShift>)
    ensures |shifts| == |ids|
  {
    seq(|ids|, i requires 0 <= i < |ids| => MultisetShift(Hex.Encode(ids[i]), multiset(a)[ids[i]], multiset(b)[ids[i]]))
  }

  /** The delta of two versions with these id columns. */
  ghost function DeltaOf(a: seq<Digest>, b: seq<Digest>): Delta {
    var x, y := ToSet(a), ToSet(b);
    Delta(|y - x|, |x - y|, |x * y|, Capped(HexAll(InOrder(y - x))), Capped(HexAll(InOrder(x - y))),
          Capped(ShiftsAt(InOrder(Shifted(a, b)), a, b)))
  }

  // ------------------------------------------------------------------------
  // From the merge-join to the delta
  // ------------------------------------------------------------------------

  function ChangedMatches(matches: seq<Match>): seq<Match> {
    if matches == [] then []
    else
      var front, m := ChangedMatches(matches[..|matches| - 1]), matches[|matches| - 1];
      if m.before != m.after then front + [m] else front
  }

  function ShiftOf(m: Match): MultisetShift {
    MultisetShift(Hex.Encode(m.id), m.before, m.after)
  }

  function ShiftsOf(matches: seq<Match>): (shifts: seq<MultisetShift>)
    ensures |shifts| == |matches|
  {
    seq(|matches|, i requires 0 <= i < |matches| => ShiftOf(matches[i]))
  }

  /** The delta of a completed merge-join. */
  function DeltaOfJoin(j: Join): Delta {
    Delta(|j.added|, |j.removed|, |j.matched|, Capped(HexAll(j.added)), Capped(HexAll(j.removed)),
          Capped(ShiftsOf(ChangedMatches(j.matched))))
  }

  lemma NoMatches()
    ensures ChangedMatches([]) == []
  {
  }

  lemma OneMatchMore(matches: seq<Match>)
    requires matches != []
    ensures var front, m := ChangedMatches(matches[..|matches| - 1]), matches[|matches| - 1];
            ChangedMatches(matches) == if m.before != m.after then front + [m] else front
  {
  }

  lemma {:induction false} ChangedMembers(matches: seq<Match>)
    ensures forall m :: m in ChangedMatches(matches) <==> m in matches && m.before != m.after
  {
    hide ChangedMatches;
    if matches == [] {
      NoMatches();
    } else {
      var n := |matches| - 1;
      OneMatchMore(matches);
      ChangedMembers(matches[..n]);
      assert matches == matches[..n] + [matches[n]];
    }
  }

  lemma {:induction false} ChangedMatchesSpec(matches: seq<Match>)
    requires StrictlyAscending(MatchIds(matches))
    ensures StrictlyAscending(MatchIds(ChangedMatches(matches)))
    ensures forall m :: m in ChangedMatches(matches) <==> m in matches && m.before != m.after
  {
    hide MatchIds, LexLess, ChangedMatches;
    ChangedMembers(matches);
    if matches == [] {
      NoMatches();
    } else {
      var n := |matches| - 1;
      var init := matches[..n];
      assert MatchIds(init) == MatchIds(matches)[..n];
      OneMatchMore(matches);
      ChangedMembers(init);
      ChangedMatchesSpec(init);
      forall i | 0 <= i < |ChangedMatches(init)|
        ensures LexLess(ChangedMatches(init)[i].id, matches[n].id)
      {
        assert ChangedMatches(init)[i] in init;
        var k :| 0 <= k < n && init[k] == ChangedMatches(init)[i];
        assert LexLess(MatchIds(matches)[k], MatchIds(matches)[n]);
      }
    }
  }

  lemma ShiftedMatches(j: Join, a: seq<Group>, b: seq<Group>, x: seq<Digest>, y: seq<Digest>)
    requires AreGroupsOf(a, x) && AreGroupsOf(b, y) && IsJoin(j, a, b)
    ensures ShiftsOf(ChangedMatches(j.matched)) == ShiftsAt(InOrder(Shifted(x, y)), x, y)
  {
    hide ChangedMatches, StrictlyAscending;
    var changed := ChangedMatches(j.matched);
    ChangedMatchesSpec(j.matched);
    forall m | m in j.matched
      ensures m.before == multiset(x)[m.id] && m.after == multiset(y)[m.id]
    {
    }
    forall d
      ensures d in ToSet(MatchIds(changed)) <==> d in Shifted(x, y)
    {
      if d in Shifted(x, y) {
        assert d in ToSet(MatchIds(j.matched));
        var i :| 0 <= i < |j.matched| && MatchIds(j.matched)[i] == d;
        assert j.matched[i] in changed;
        var k :| 0 <= k < |changed| && changed[k] == j.matched[i];
        assert MatchIds(changed)[k] == d;
      }
      if d in MatchIds(changed) {
        var k :| 0 <= k < |changed| && MatchIds(changed)[k] == d;
        assert changed[k] in j.matched;
        var i :| 0 <= i < |j.matched| && j.matched[i] == changed[k];
        assert MatchIds(j.matched)[i] == d;
      }
    }
    AscendingListUnique(MatchIds(changed), InOrder(Shifted(x, y)));
    forall k | 0 <= k < |changed|
      ensures ShiftOf(changed[k]) == ShiftsAt(InOrder(Shifted(x, y)), x, y)[k]
    {
      assert changed[k] in j.matched;
      assert MatchIds(changed)[k] == changed[k].id;
    }
  }

  /** The merge-join of the groups gives the delta of the id columns. */
  lemma JoinGivesDelta(a: seq<Group>, b: seq<Group>, x: seq<Digest>, y: seq<Digest>)
    requires AreGroupsOf(a, x) && AreGroupsOf(b, y)
    ensures DeltaOfJoin(MergeJoin(a, b)) == DeltaOf(x, y)
  {
    var j := MergeJoin(a, b);
    MergeJoinSpec(a, b);
    AscendingListUnique(j.added, InOrder(ToSet(y) - ToSet(x)));
    AscendingListUnique(j.removed, InOrder(ToSet(x) - ToSet(y)));
    AscendingSize(j.added);
    AscendingSize(j.removed);
    AscendingSize(MatchIds(j.matched));
    ShiftedMatches(j, a, b, x, y);
  }

  // ------------------------------------------------------------------------
  // compare
  // ------------------------------------------------------------------------

  /** What is joined already, followed by what joining the rest gives. */
  function Followed(done: Join, rest: Join): Join {
    Join(done.removed + rest.removed, done.added + rest.added, done.matched + rest.matched)
  }

  /** The group in hand, if any, and those still to be read. */
  function Prepend(g: Option<Group>, rest: Result<seq<Group>, DiffError>): Result<seq<Group>, DiffError> {
    match rest
    case Err(e) => Err(e)
    case Ok(groups) => Ok(if g.Some? then [g.value] + groups else groups)
  }

  /** Where the walk of one stream stands: it meets the error the whole stream meets, or seen
      groups plus those to come are all the groups. */
  ghost predicate Tracks(all: seq<Item>, items: seq<Item>, last: Option<Digest>, seen: nat) {
    match Groups(items, last)
    case Err(e) => Groups(all, None) == Err(e)
    case Ok(rest) => Groups(all, None).Ok? && |Groups(all, None).value| == seen + |rest|
  }

  lemma TracksOn(all: seq<Item>, items: seq<Item>, last: Option<Digest>, seen: nat)
    requires Tracks(all, items, last, seen)
    ensures FirstGroup(items, last).Err? ==> Groups(all, None) == Err(FirstGroup(items, last).error)
    ensures FirstGroup(items, last) == Ok(None) ==> Groups(items, last) == Ok([])
    ensures FirstGroup(items, last).Ok? && FirstGroup(items, last).value.Some? ==>
              var g := FirstGroup(items, last).value.value;
              && Tracks(all, items[g.count..], Some(g.id), seen + 1)
              && Prepend(Some(g), Groups(items[g.count..], Some(g.id))) == Groups(items, last)
  {
  }

  /** The merge-join takes its next step. */
  lemma JoinStep(done: Join, a: seq<Group>, b: seq<Group>)
    ensures a != [] && (b == [] || LexLess(a[0].id, b[0].id)) ==>
              Followed(done, MergeJoin(a, b)) == Followed(done.(removed := done.removed + [a[0].id]),
                                                          MergeJoin(a[1..], b))
    ensures b != [] && (a == [] || LexLess(b[0].id, a[0].id)) ==>
              Followed(done, MergeJoin(a, b)) == Followed(done.(added := done.added + [b[0].id]), MergeJoin(a, b[1..]))
    ensures a != [] && b != [] && a[0].id == b[0].id ==>
              Followed(done, MergeJoin(a, b))
              == Followed(done.(matched := done.matched + [Match(a[0].id, a[0].count, b[0].count)]),
                          MergeJoin(a[1..], b[1..]))
  {
    if a != [] && b != [] {
      if LexLess(b[0].id, a[0].id) {
        LexAsymmetric(b[0].id, a[0].id);
      }
      LexIrreflexive(a[0].id);
    }
  }

  /** The reader is on its stream, what is to come and what it has counted make up the whole. */
  ghost predicate OnTrack(g: GroupReader, all: seq<Item>): (on: bool)
    reads g, g.acc
    ensures on ==> g.items == all && g.pos <= |all|
  {
    && g.Valid() && g.items == all
    && Tracks(all, all[g.pos..], g.lastId, g.acc.distinctDocuments)
  }

  /** The reader stands where it should in its stream. */
  ghost predicate ReaderTracks(g: GroupReader, all: seq<Item>, cur: Option<Group>)
    reads g, g.acc
  {
    OnTrack(g, all) && (cur.None? ==> g.pos == |all|)
  }

  /** How many rows and groups in hand are left. */
  ghost function Left(g: GroupReader, cur: Option<Group>): nat
    requires g.pos <= |g.items|
    reads g
  {
    |g.items| - g.pos + if cur.Some? then 1 else 0
  }

  /** The groups the reader has still to yield. */
  ghost function ToCome(g: GroupReader): Result<seq<Group>, DiffError>
    requires g.pos <= |g.items|
    reads g
  {
    Groups(g.items[g.pos..], g.lastId)
  }

  method Advance(g: GroupReader, all: seq<Item>, ghost cur: Option<Group>) returns (r: Result<Option<Group>, DiffError>)
    requires OnTrack(g, all)
    modifies g, g.acc
    ensures r.Err? ==> Groups(all, None) == Err(r.error)
    ensures r.Ok? ==> ReaderTracks(g, all, r.value) && Prepend(r.value, ToCome(g)) == old(ToCome(g))
    ensures r.Ok? ==> Left(g, r.value) <= old(Left(g, None))
  {
    ghost var rest, last, seen, was := all[g.pos..], g.lastId, g.acc.distinctDocuments, g.pos;
    TracksOn(all, rest, last, seen);
    r := g.NextGroup();
    assert r == FirstGroup(rest, last);
    if r.Ok? {
      if r.value.Some? {
        assert rest[r.value.value.count..] == all[g.pos..];
      } else {
        assert rest == all[g.pos..];
      }
    }
  }

  // ------------------------------------------------------------------------
  // One step of the walk
  // ------------------------------------------------------------------------

  /** Unless an error is still to come, what is joined followed by joining the rest is the
      join of both streams. */
  ghost predicate JoinsOn(before: seq<Item>, after: seq<Item>, done: Join,
                          a: Result<seq<Group>, DiffError>, b: Result<seq<Group>, DiffError>) {
    a.Ok? && b.Ok? && Groups(before, None).Ok? && Groups(after, None).Ok? ==>
      Followed(done, MergeJoin(a.value, b.value)) == MergeJoin(Groups(before, None).value, Groups(after, None).value)
  }

  lemma Removes(before: seq<Item>, after: seq<Item>, done: Join, g: Group, a: Result<seq<Group>, DiffError>,
                h: Option<Group>, b: Result<seq<Group>, DiffError>)
    requires if h.Some? then LexLess(g.id, h.value.id) else b == Ok([])
    requires JoinsOn(before, after, done, Prepend(Some(g), a), Prepend(h, b))
    ensures JoinsOn(before, after, done.(removed := done.removed + [g.id]), a, Prepend(h, b))
  {
    if a.Ok? && b.Ok? {
      var x := [g] + a.value;
      assert x[1..] == a.value;
      JoinStep(done, x, Prepend(h, b).value);
    }
  }

  lemma Adds(before: seq<Item>, after: seq<Item>, done: Join, g: Option<Group>, a: Result<seq<Group>, DiffError>,
             h: Group, b: Result<seq<Group>, DiffError>)
    requires if g.Some? then LexLess(h.id, g.value.id) else a == Ok([])
    requires JoinsOn(before, after, done, Prepend(g, a), Prepend(Some(h), b))
    ensures JoinsOn(before, after, done.(added := done.added + [h.id]), Prepend(g, a), b)
  {
    if a.Ok? && b.Ok? {
      var y := [h] + b.value;
      assert y[1..] == b.value;
      JoinStep(done, Prepend(g, a).value, y);
    }
  }

  lemma Matches(before: seq<Item>, after: seq<Item>, done: Join, g: Group, a: Result<seq<Group>, DiffError>,
                h: Group, b: Result<seq<Group>, DiffError>)
    requires g.id == h.id
    requires JoinsOn(before, after, done, Prepend(Some(g), a), Prepend(Some(h), b))
    ensures JoinsOn(before, after, done.(matched := done.matched + [Match(g.id, g.count, h.count)]), a, b)
  {
    if a.Ok? && b.Ok? {
      var x, y := [g] + a.value, [h] + b.value;
      assert x[1..] == a.value && y[1..] == b.value;
      JoinStep(done, x, y);
    }
  }

  lemma JoinIsOver(before: seq<Item>, after: seq<Item>, done: Join, lastA: Option<Digest>, lastB: Option<Digest>)
    requires JoinsOn(before, after, done, Groups(before[|before|..], lastA), Groups(after[|after|..], lastB))
    ensures Groups(before, None).Ok? && Groups(after, None).Ok? ==>
              done == MergeJoin(Groups(before, None).value, Groups(after, None).value)
  {
    assert Followed(done, Join([], [], [])) == done;
  }

  /** `push_example`, and the same cap on the shifts. */
  function PushCapped<T>(s: seq<T>, x: T): seq<T> {
    if |s| < MAX_EXAMPLES then s + [x] else s
  }

  function CountRemoved(d: Delta, id: Digest): Delta {
    d.(removed := d.removed + 1, removedExamples := PushCapped(d.removedExamples, Hex.Encode(id)))
  }

  function CountAdded(d: Delta, id: Digest): Delta {
    d.(added := d.added + 1, addedExamples := PushCapped(d.addedExamples, Hex.Encode(id)))
  }

  function CountMatch(d: Delta, id: Digest, before: nat, after: nat): Delta {
    d.(inBoth := d.inBoth + 1,
       multisetShifts := if before != after
                         then PushCapped(d.multisetShifts, MultisetShift(Hex.Encode(id), before, after))
                         else d.multisetShifts)
  }

  /** Counting as it goes, the loop has the delta of what is joined. */
  lemma CountsKeepUp(done: Join, id: Digest)
    ensures CountRemoved(DeltaOfJoin(done), id) == DeltaOfJoin(done.(removed := done.removed + [id]))
    ensures CountAdded(DeltaOfJoin(done), id) == DeltaOfJoin(done.(added := done.added + [id]))
  {
  }

  lemma CountMatchKeepsUp(done: Join, m: Match)
    ensures CountMatch(DeltaOfJoin(done), m.id, m.before, m.after) == DeltaOfJoin(done.(matched := done.matched + [m]))
  {
    assert (done.matched + [m])[..|done.matched|] == done.matched;
    var changed := ChangedMatches(done.matched);
    assert ShiftsOf(changed + [m]) == ShiftsOf(changed) + [ShiftOf(m)];
  }

  /** Both readers on their streams with the groups in hand, the delta that of what is joined,
      and what is to come what is to be joined. */
  ghost predicate OnWalk(ga: GroupReader, gb: GroupReader, before: seq<Item>, after: seq<Item>,
                         a: Option<Group>, b: Option<Group>, done: Join, delta: Delta)
    reads ga, gb, ga.acc, gb.acc
  {
    && ga != gb && ga.acc != gb.acc && ReaderTracks(ga, before, a) && ReaderTracks(gb, after, b)
    && JoinsOn(before, after, done, Prepend(a, ToCome(ga)), Prepend(b, ToCome(gb)))
    && delta == DeltaOfJoin(done)
  }

  /** The arm for a group only the old version has. */
  method TakeRemoved(ga: GroupReader, gb: GroupReader, before: seq<Item>, after: seq<Item>,
                     a: Group, b: Option<Group>, ghost done: Join, delta: Delta)
    returns (r: Result<Option<Group>, DiffError>, delta': Delta, ghost done': Join)
    requires OnWalk(ga, gb, before, after, Some(a), b, done, delta) && (b.Some? ==> LexLess(a.id, b.value.id))
    modifies ga, ga.acc
    ensures r.Err? ==> Groups(before, None) == Err(r.error)
    ensures r.Ok? ==> OnWalk(ga, gb, before, after, r.value, b, done', delta')
    ensures r.Ok? ==> Left(ga, r.value) < old(Left(ga, Some(a)))
  {
    Removes(before, after, done, a, ToCome(ga), b, ToCome(gb));
    CountsKeepUp(done, a.id);
    delta' := CountRemoved(delta, a.id);
    done' := done.(removed := done.removed + [a.id]);
    r := Advance(ga, before, Some(a));
  }

  /** The arm for a group only the new version has. */
  method TakeAdded(ga: GroupReader, gb: GroupReader, before: seq<Item>, after: seq<Item>,
                   a: Option<Group>, b: Group, ghost done: Join, delta: Delta)
    returns (r: Result<Option<Group>, DiffError>, delta': Delta, ghost done': Join)
    requires OnWalk(ga, gb, before, after, a, Some(b), done, delta) && (a.Some? ==> LexLess(b.id, a.value.id))
    modifies gb, gb.acc
    ensures r.Err? ==> Groups(after, None) == Err(r.error)
    ensures r.Ok? ==> OnWalk(ga, gb, before, after, a, r.value, done', delta')
    ensures r.Ok? ==> Left(gb, r.value) < old(Left(gb, Some(b)))
  {
    Adds(before, after, done, a, ToCome(ga), b, ToCome(gb));
    CountsKeepUp(done, b.id);
    delta' := CountAdded(delta, b.id);
    done' := done.(added := done.added + [b.id]);
    r := Advance(gb, after, Some(b));
  }

  /** The arm for a group both versions have. */
  method TakeMatch(ga: GroupReader, gb: GroupReader, before: seq<Item>, after: seq<Item>,
                   a: Group, b: Group, ghost done: Join, delta: Delta)
    returns (r: Result<(Option<Group>, Option<Group>), DiffError>, delta': Delta, ghost done': Join)
    requires OnWalk(ga, gb, before, after, Some(a), Some(b), done, delta) && a.id == b.id
    modifies ga, gb, ga.acc, gb.acc
    ensures r.Err? ==> Groups(before, None) == Err(r.error) || Groups(after, None) == Err(r.error)
    ensures r.Ok? ==>
              && OnWalk(ga, gb, before, after, r.value.0, r.value.1, done', delta')
              && Left(ga, r.value.0) < old(Left(ga, Some(a))) && Left(gb, r.value.1) < old(Left(gb, Some(b)))
  {
    hide MergeJoin, DeltaOfJoin, Followed, CountMatch, Groups, OnTrack, JoinsOn;
    Matches(before, after, done, a, ToCome(ga), b, ToCome(gb));
    CountMatchKeepsUp(done, Match(a.id, a.count, b.count));
    delta' := CountMatch(delta, a.id, a.count, b.count);
    done' := done.(matched := done.matched + [Match(a.id, a.count, b.count)]);
    var nextA := Advance(ga, before, Some(a));
    if nextA.Err? {
      return Err(nextA.error), delta', done';
    }
    var nextB := Advance(gb, after, Some(b));
    if nextB.Err? {
      return Err(nextB.error), delta', done';
    }
    r := Ok((nextA.value, nextB.value));
  }

  /** The loop body: which arm the groups in hand call for. */
  method Classify(ga: GroupReader, gb: GroupReader, before: seq<Item>, after: seq<Item>,
                  a: Option<Group>, b: Option<Group>, ghost done: Join, delta: Delta)
    returns (r: Result<(Option<Group>, Option<Group>), DiffError>, delta': Delta, ghost done': Join)
    requires OnWalk(ga, gb, before, after, a, b, done, delta) && (a.Some? || b.Some?)
    modifies ga, gb, ga.acc, gb.acc
    ensures r.Err? ==> Groups(before, None) == Err(r.error) || Groups(after, None) == Err(r.error)
    ensures r.Ok? ==>
              && OnWalk(ga, gb, before, after, r.value.0, r.value.1, done', delta')
              && Left(ga, r.value.0) + Left(gb, r.value.1) < old(Left(ga, a) + Left(gb, b))
  {
    if a.Some? && (b.None? || LexLess(a.value.id, b.value.id)) {
      var next;
      next, delta', done' := TakeRemoved(ga, gb, before, after, a.value, b, done, delta);
      r := if next.Ok? then Ok((next.value, b)) else Err(next.error);
    } else if b.Some? && (a.None? || LexLess(b.value.id, a.value.id)) {
      var next;
      next, delta', done' := TakeAdded(ga, gb, before, after, a, b.value, done, delta);
      r := if next.Ok? then Ok((a, next.value)) else Err(next.error);
    } else {
      LexTrichotomy(a.value.id, b.value.id);
      r, delta', done' := TakeMatch(ga, gb, before, after, a.value, b.value, done, delta);
    }
  }

  const NOTHING_JOINED := Join([], [], [])
  const EMPTY_DELTA := Delta(0, 0, 0, [], [], [])

  /** A reader on its stream, with its first group in hand. */
  method Open(items: seq<Item>) returns (g: GroupReader, first: Result<Option<Group>, DiffError>)
    ensures fresh(g) && fresh(g.acc)
    ensures first.Err? ==> Groups(items, None) == Err(first.error)
    ensures first.Ok? ==> ReaderTracks(g, items, first.value) && Prepend(first.value, ToCome(g)) == Groups(items, None)
  {
    g := new GroupReader(items);
    assert items[0..] == items;
    first := Advance(g, items, None);
  }

  /** Both readers, with their first groups in hand. */
  method Start(before: seq<Item>, after: seq<Item>)
    returns (ga: GroupReader, gb: GroupReader, r: Result<(Option<Group>, Option<Group>), DiffError>)
    ensures fresh(ga) && fresh(gb) && fresh(ga.acc) && fresh(gb.acc)
    ensures r.Err? ==> Groups(before, None) == Err(r.error) || Groups(after, None) == Err(r.error)
    ensures r.Ok? ==> OnWalk(ga, gb, before, after, r.value.0, r.value.1, NOTHING_JOINED, EMPTY_DELTA)
  {
    hide Groups, OnTrack, JoinsOn, DeltaOfJoin;
    var a, b;
    ga, a := Open(before);
    gb, b := Open(after);
    if a.Err? {
      return ga, gb, Err(a.error);
    }
    if b.Err? {
      return ga, gb, Err(b.error);
    }
    NothingJoined(before, after);
    r := Ok((a.value, b.value));
  }

  lemma NothingJoined(before: seq<Item>, after: seq<Item>)
    ensures JoinsOn(before, after, NOTHING_JOINED, Groups(before, None), Groups(after, None))
    ensures EMPTY_DELTA == DeltaOfJoin(NOTHING_JOINED)
  {
  }

  /** The classifying loop. */
  method Walk(ga: GroupReader, gb: GroupReader, before: seq<Item>, after: seq<Item>, a0: Option<Group>,
              b0: Option<Group>)
    returns (r: Result<Delta, DiffError>, ghost done: Join)
    requires OnWalk(ga, gb, before, after, a0, b0, NOTHING_JOINED, EMPTY_DELTA)
    modifies ga, gb, ga.acc, gb.acc
    ensures r.Err? ==> Groups(before, None) == Err(r.error) || Groups(after, None) == Err(r.error)
    ensures r.Ok? ==> OnWalk(ga, gb, before, after, None, None, done, r.value)
  {
    done := NOTHING_JOINED;
    var a, b, delta := a0, b0, EMPTY_DELTA;
    while a.Some? || b.Some?
      invariant OnWalk(ga, gb, before, after, a, b, done, delta)
      decreases Left(ga, a) + Left(gb, b)
    {
      var next;
      next, delta, done := Classify(ga, gb, before, after, a, b, done, delta);
      if next.Err? {
        return Err(next.error), done;
      }
      a, b := next.value.0, next.value.1;
    }
    r := Ok(delta);
  }

  method Compare(H: Hasher, before: seq<Item>, after: seq<Item>, timestamp: Option<string>)
    returns (r: Result<DiffReport, DiffError>)
    ensures r.Ok? <==> Clean(before) && Clean(after)
    ensures r.Err? ==> Groups(before, None) == Err(r.error) || Groups(after, None) == Err(r.error)
    ensures r.Ok? ==> r.value == ReportOf(H, Rows(before), Rows(after), timestamp)
  {
    GroupsIffClean(before, None);
    GroupsIffClean(after, None);
    var ga, gb, first := Start(before, after);
    if first.Err? {
      return Err(first.error);
    }
    var delta, done := Walk(ga, gb, before, after, first.value.0, first.value.1);
    if delta.Err? {
      return Err(delta.error);
    }
    WalkIsOver(ga, gb, before, after, done, delta.value);
    var a := ga.acc.Finish(H, Rows(before));
    var b := gb.acc.Finish(H, Rows(after));
    r := Ok(DiffReport(timestamp, a, b, delta.value));
  }

  /** The report on two versions. */
  ghost function ReportOf(H: Hasher, a: seq<ManifestEntry>, b: seq<ManifestEntry>,
                          timestamp: Option<string>): DiffReport {
    var x, y := DocumentIds(a), DocumentIds(b);
    DiffReport(timestamp, SummaryOf(H, a, |ToSet(x)|), SummaryOf(H, b, |ToSet(y)|), DeltaOf(x, y))
  }

  /** At the end of a stream all its groups have been seen and all its rows tallied. */
  lemma ReaderIsOver(g: GroupReader, all: seq<Item>)
    requires ReaderTracks(g, all, None)
    ensures Clean(all) && Groups(all, None).Ok? && AreGroupsOf(Groups(all, None).value, Ids(all))
    ensures g.acc.distinctDocuments == |ToSet(Ids(all))| && g.acc.Value() == TallyOf(Rows(all))
  {
    assert all[..|all|] == all;
    GroupsIffClean(all, None);
    GroupsOfClean(all, None);
    AscendingSize(GroupIds(Groups(all, None).value));
  }

  lemma WalkIsOver(ga: GroupReader, gb: GroupReader, before: seq<Item>, after: seq<Item>, done: Join, delta: Delta)
    requires OnWalk(ga, gb, before, after, None, None, done, delta)
    ensures Clean(before) && Clean(after) && delta == DeltaOf(Ids(before), Ids(after))
    ensures ga.acc.distinctDocuments == |ToSet(Ids(before))| && ga.acc.Value() == TallyOf(Rows(before))
    ensures gb.acc.distinctDocuments == |ToSet(Ids(after))| && gb.acc.Value() == TallyOf(Rows(after))
  {
    ReaderIsOver(ga, before);
    ReaderIsOver(gb, after);
    JoinIsOver(before, after, done, ga.lastId, gb.lastId);
    JoinGivesDelta(Groups(before, None).value, Groups(after, None).value, Ids(before), Ids(after));
  }

  // ------------------------------------------------------------------------
  // What follows for the report
  // ------------------------------------------------------------------------

  /** Conservation: added and unchanged are the new version's distinct documents, removed and
      unchanged the old one's. */
  lemma DistinctAddUp(H: Hasher, a: seq<ManifestEntry>, b: seq<ManifestEntry>, timestamp: Option<string>)
    ensures var r := ReportOf(H, a, b, timestamp);
            && r.delta.added + r.delta.inBoth == r.after.distinctDocuments
            && r.delta.removed + r.delta.inBoth == r.before.distinctDocuments
  {
    var x, y := ToSet(DocumentIds(a)), ToSet(DocumentIds(b));
    assert x == (x - y) + (x * y) && y == (y - x) + (x * y);
    assert (x - y) * (x * y) == {} && (y - x) * (x * y) == {};
  }

  function Swapped(s: MultisetShift): MultisetShift {
    MultisetShift(s.documentId, s.newCount, s.oldCount)
  }

  /** Swapping the versions swaps added with removed and the two counts of each shift. */
  lemma SwapSymmetry(H: Hasher, a: seq<ManifestEntry>, b: seq<ManifestEntry>, timestamp: Option<string>)
    ensures var r, s := ReportOf(H, a, b, timestamp), ReportOf(H, b, a, timestamp);
            s.before == r.after && s.after == r.before && SwappedDelta(r.delta, s.delta)
  {
    DeltaSwaps(DocumentIds(a), DocumentIds(b));
  }

  ghost predicate SwappedDelta(d: Delta, e: Delta) {
    && e.added == d.removed && e.removed == d.added && e.inBoth == d.inBoth
    && e.addedExamples == d.removedExamples && e.removedExamples == d.addedExamples
    && |e.multisetShifts| == |d.multisetShifts|
    && forall i :: 0 <= i < |d.multisetShifts| ==> e.multisetShifts[i] == Swapped(d.multisetShifts[i])
  }

  lemma DeltaSwaps(x: seq<Digest>, y: seq<Digest>)
    ensures SwappedDelta(DeltaOf(x, y), DeltaOf(y, x))
  {
    assert ToSet(x) * ToSet(y) == ToSet(y) * ToSet(x);
    assert Shifted(x, y) == Shifted(y, x);
  }
}
