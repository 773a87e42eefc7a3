/** `build_corpus`: workers hash entries, land them in the content store and collect rows,
    in any interleaving; the collected rows are merged in any order; a sequential epilogue
    puts them in canonical order and computes the root. */
module Pipeline {
  import opened Basics
  import opened Ordering
  import opened Manifest
  import opened ManifestOrder
  import opened Merkle
  import opened MerkleSoundness

  /** The two digests of the stream hash. */
  datatype Hashes = Hashes(blake3: Hasher, sha256: Hasher)

  /** A path comes with what reading it yields. */
  datatype ContentSource = Path(read: Option<Bytes>) | InMemory(bytes: Bytes)

  datatype CorpusEntry = CorpusEntry(
    sourceUri: string,
    content: ContentSource,
    modality: Modality,
    sourceType: Option<SourceType>,
    sourceDatasetId: Option<string>,
    licenseSpdx: Option<string>,
    language: Option<string>)

  datatype BuildError = Io(sourceUri: string)

  // ------------------------------------------------------------------------
  // One entry
  // ------------------------------------------------------------------------

  function Contents(e: CorpusEntry): Option<Bytes> {
    match e.content
    case Path(read) => read
    case InMemory(bytes) => Some(bytes)
  }

  function RowOf(hs: Hashes, i: nat, e: CorpusEntry, bytes: Bytes): ManifestEntry {
    ManifestEntry(hs.blake3(bytes), hs.sha256(bytes), |bytes|, e.modality, Some(e.sourceUri), e.sourceType,
                  e.sourceDatasetId, e.licenseSpdx, e.language, i, 0)
  }

  /** A put whose path exists returns at once; otherwise the disk decides. */
  function Put(cas: Cas, digest: Digest, bytes: Bytes, diskOk: bool): Option<Cas> {
    if digest in cas then Some(cas) else if diskOk then Some(cas[digest := bytes]) else None
  }

  /** `build_row`: read, hash, put, assemble. */
  function BuildRow(hs: Hashes, i: nat, e: CorpusEntry, cas: Cas, diskOk: bool)
    : Result<(ManifestEntry, Cas), BuildError>
  {
    match Contents(e)
    case None => Err(Io(e.sourceUri))
    case Some(bytes) =>
      match Put(cas, hs.blake3(bytes), bytes, diskOk)
      case None => Err(Io(e.sourceUri))
      case Some(cas') => Ok((RowOf(hs, i, e, bytes), cas'))
  }

  // ------------------------------------------------------------------------
  // The parallel phase
  // ------------------------------------------------------------------------

  /** A fold in progress: its accumulator, the entries it has folded, those it has left. */
  datatype Worker = Worker(acc: Result<seq<ManifestEntry>, BuildError>, done: seq<nat>, todo: seq<nat>)

  datatype State = State(workers: seq<Worker>, cas: Cas)

  function Upto(n: nat): (s: seq<nat>)
    ensures |s| == n && forall i :: 0 <= i < n ==> s[i] == i
  {
    seq(n, i requires 0 <= i => i)
  }

  /** The entries' positions, split among the workers. */
  function Start(split: seq<seq<nat>>, cas: Cas): State {
    State(seq(|split|, w requires 0 <= w < |split| => Worker(Ok([]), [], split[w])), cas)
  }

  function Concat(parts: seq<seq<nat>>): seq<nat> {
    if parts == [] then [] else parts[0] + Concat(parts[1..])
  }

  /** Every position is handed to some worker, once. */
  ghost predicate IsSplit(split: seq<seq<nat>>, n: nat) {
    multiset(Concat(split)) == multiset(Upto(n))
  }

  /** The fold's closure applied to the worker's next entry. An error makes the rest of this
      worker's entries pass by untouched. */
  function FoldStep(hs: Hashes, entries: seq<CorpusEntry>, w: Worker, cas: Cas, diskOk: bool): (Worker, Cas)
    requires w.todo != [] && w.todo[0] < |entries|
  {
    var i := w.todo[0];
    var w' := w.(done := w.done + [i], todo := w.todo[1..]);
    if w.acc.Err? then (w', cas)
    else
      match BuildRow(hs, i, entries[i], cas, diskOk)
      case Err(e) => (w'.(acc := Err(e)), cas)
      case Ok((row, cas')) => (w'.(acc := Ok(w.acc.value + [row])), cas')
  }

  /** The scheduler runs a worker's next entry; the disk may fail it. */
  datatype Choice = Choice(worker: nat, diskOk: bool)

  function Step(hs: Hashes, entries: seq<CorpusEntry>, s: State, c: Choice): (s': State)
    ensures |s'.workers| == |s.workers|
  {
    if c.worker < |s.workers| && s.workers[c.worker].todo != [] && s.workers[c.worker].todo[0] < |entries| then
      var (w, cas) := FoldStep(hs, entries, s.workers[c.worker], s.cas, c.diskOk);
      State(s.workers[c.worker := w], cas)
    else s
  }

  function Execute(hs: Hashes, entries: seq<CorpusEntry>, s: State, choices: seq<Choice>): (s': State)
    ensures |s'.workers| == |s.workers|
    decreases |choices|
  {
    if choices == [] then s
    else Step(hs, entries, Execute(hs, entries, s, choices[..|choices| - 1]), choices[|choices| - 1])
  }

  predicate Finished(s: State) {
    forall w :: 0 <= w < |s.workers| ==> s.workers[w].todo == []
  }

  /** The order in which the reduction combines accumulators, fresh empty ones among them. */
  datatype MergeTree = Identity | Of(worker: nat) | Both(left: MergeTree, right: MergeTree)

  predicate Fits(tree: MergeTree, workers: nat) {
    match tree
    case Identity => true
    case Of(w) => w < workers
    case Both(left, right) => Fits(left, workers) && Fits(right, workers)
  }

  function Reduce(tree: MergeTree, s: State): Result<seq<ManifestEntry>, BuildError>
    requires Fits(tree, |s.workers|)
  {
    match tree
    case Identity => Ok([])
    case Of(w) => s.workers[w].acc
    case Both(left, right) =>
      var a :- Reduce(left, s);
      var b :- Reduce(right, s);
      Ok(a + b)
  }

  function Visits(tree: MergeTree): seq<nat> {
    match tree
    case Identity => []
    case Of(w) => [w]
    case Both(left, right) => Visits(left) + Visits(right)
  }

  /** The reduction takes every worker's accumulator exactly once. */
  ghost predicate MergesAll(tree: MergeTree, workers: nat) {
    multiset(Visits(tree)) == multiset(Upto(workers))
  }

  // ------------------------------------------------------------------------
  // The epilogue
  // ------------------------------------------------------------------------

  predicate OrdinalLeq(a: ManifestEntry, b: ManifestEntry) {
    a.inputOrdinal <= b.inputOrdinal
  }

  datatype BuildOutput = BuildOutput(merkleRoot: Digest, leafCount: nat, totalBytes: nat)

  /** Sort by ordinal, rank, sort canonically, hash. */
  method Epilogue(H: Hasher, collected: seq<ManifestEntry>) returns (rows: seq<ManifestEntry>, output: BuildOutput)
    ensures rows == Sealed(SortBy(OrdinalLeq, collected))
    ensures output == BuildOutput(MTH(H, DocumentIds(rows)), |collected|, SumOf(SizeOf, rows))
  {
    var sorted := SortBy(OrdinalLeq, collected);
    var a := new ManifestEntry[|sorted|](i requires 0 <= i < |sorted| => sorted[i]);
    assert a[..] == sorted;
    AssignOccurrenceIndices(a);
    SortEntries(a);
    rows := a[..];
    var root := MerkleRoot(H, DocumentIds(rows));
    output := BuildOutput(root, |rows|, SumOf(SizeOf, rows));
  }

  // ------------------------------------------------------------------------
  // What a finished run has collected
  // ------------------------------------------------------------------------

  ghost predicate AllReadable(entries: seq<CorpusEntry>) {
    forall i :: 0 <= i < |entries| ==> Contents(entries[i]).Some?
  }

  ghost predicate Readable(entries: seq<CorpusEntry>, i: nat) {
    i < |entries| && Contents(entries[i]).Some?
  }

  function RowAt(hs: Hashes, entries: seq<CorpusEntry>, i: nat): ManifestEntry
    requires Readable(entries, i)
  {
    RowOf(hs, i, entries[i], Contents(entries[i]).value)
  }

  ghost predicate ReadableAll(entries: seq<CorpusEntry>, indices: seq<nat>) {
    forall k :: 0 <= k < |indices| ==> Readable(entries, indices[k])
  }

  ghost function RowsAt(hs: Hashes, entries: seq<CorpusEntry>, indices: seq<nat>): (rows: seq<ManifestEntry>)
    requires ReadableAll(entries, indices)
    ensures |rows| == |indices|
  {
    seq(|indices|, k requires 0 <= k < |indices| => RowAt(hs, entries, indices[k]))
  }

  ghost predicate Stored(rows: seq<ManifestEntry>, cas: Cas) {
    forall k :: 0 <= k < |rows| ==> rows[k].documentId in cas
  }

  /** A worker has seen the front of its share, and unless it met an error has exactly the
      rows of what it has seen, all of them stored. */
  ghost predicate WorkerGood(hs: Hashes, entries: seq<CorpusEntry>, share: seq<nat>, w: Worker, cas: Cas) {
    && w.done + w.todo == share
    && (w.acc.Ok? ==> ReadableAll(entries, w.done) && w.acc.value == RowsAt(hs, entries, w.done) &&
                      Stored(w.acc.value, cas))
  }

  /** Every stored content hashes to its key. */
  ghost predicate Honest(H: Hasher, cas: Cas) {
    forall d :: d in cas ==> H(cas[d]) == d
  }

  ghost predicate Inv(hs: Hashes, entries: seq<CorpusEntry>, split: seq<seq<nat>>, s: State) {
    && |s.workers| == |split|
    && (forall w :: 0 <= w < |split| ==> WorkerGood(hs, entries, split[w], s.workers[w], s.cas))
    && Honest(hs.blake3, s.cas)
  }

  lemma FoldStepGood(hs: Hashes, entries: seq<CorpusEntry>, share: seq<nat>, w: Worker, cas: Cas, diskOk: bool)
    requires WorkerGood(hs, entries, share, w, cas) && w.todo != [] && w.todo[0] < |entries|
    requires Honest(hs.blake3, cas)
    ensures var (w', cas') := FoldStep(hs, entries, w, cas, diskOk);
            && WorkerGood(hs, entries, share, w', cas')
            && Honest(hs.blake3, cas')
            && forall d :: d in cas ==> d in cas'
  {
    var (w', cas') := FoldStep(hs, entries, w, cas, diskOk);
    assert w.todo == [w.todo[0]] + w.todo[1..];
    assert w'.done + w'.todo == w.done + w.todo;
  }

  lemma StepInv(hs: Hashes, entries: seq<CorpusEntry>, split: seq<seq<nat>>, s: State, c: Choice)
    requires Inv(hs, entries, split, s)
    ensures Inv(hs, entries, split, Step(hs, entries, s, c))
  {
    if c.worker < |s.workers| && s.workers[c.worker].todo != [] && s.workers[c.worker].todo[0] < |entries| {
      FoldStepGood(hs, entries, split[c.worker], s.workers[c.worker], s.cas, c.diskOk);
      var s' := Step(hs, entries, s, c);
      forall w | 0 <= w < |split|
        ensures WorkerGood(hs, entries, split[w], s'.workers[w], s'.cas)
      {
        assert WorkerGood(hs, entries, split[w], s.workers[w], s.cas);
      }
    }
  }

  lemma {:induction false} RunInv(hs: Hashes, entries: seq<CorpusEntry>, split: seq<seq<nat>>, cas: Cas,
                                  choices: seq<Choice>)
    requires Honest(hs.blake3, cas)
    ensures Inv(hs, entries, split, Execute(hs, entries, Start(split, cas), choices))
    decreases |choices|
  {
    if choices != [] {
      var front, last := choices[..|choices| - 1], choices[|choices| - 1];
      RunInv(hs, entries, split, cas, front);
      StepInv(hs, entries, split, Execute(hs, entries, Start(split, cas), front), last);
    }
  }

  // ------------------------------------------------------------------------
  // Merging
  // ------------------------------------------------------------------------

  predicate Below(order: seq<nat>, n: nat) {
    forall k :: 0 <= k < |order| ==> order[k] < n
  }

  lemma {:induction false} FitsIsBelow(tree: MergeTree, n: nat)
    ensures Fits(tree, n) <==> Below(Visits(tree), n)
  {
    match tree
    case Identity =>
    case Of(w) => assert Visits(tree)[0] == w;
    case Both(left, right) =>
      FitsIsBelow(left, n);
      FitsIsBelow(right, n);
      BelowAppend(Visits(left), Visits(right), n);
  }

  lemma BelowAppend(a: seq<nat>, b: seq<nat>, n: nat)
    ensures Below(a + b, n) <==> Below(a, n) && Below(b, n)
  {
    if Below(a + b, n) {
      assert forall k :: 0 <= k < |a| ==> (a + b)[k] == a[k];
      assert forall k :: 0 <= k < |b| ==> (a + b)[|a| + k] == b[k];
    }
  }

  /** The entries behind a merge, in the merge's order. */
  function Shares(split: seq<seq<nat>>, order: seq<nat>): (shares: seq<seq<nat>>)
    requires Below(order, |split|)
    ensures |shares| == |order|
  {
    seq(|order|, k requires 0 <= k < |order| => split[order[k]])
  }

  lemma ConcatUnfolds(parts: seq<seq<nat>>)
    ensures Concat(parts) == if parts == [] then [] else parts[0] + Concat(parts[1..])
  {
  }

  lemma {:induction false} ConcatAppend(a: seq<seq<nat>>, b: seq<seq<nat>>)
    ensures Concat(a + b) == Concat(a) + Concat(b)
  {
    hide Concat;
    if a == [] {
      assert a + b == b;
      ConcatUnfolds(a);
    } else {
      ConcatAppend(a[1..], b);
      assert (a + b)[0] == a[0] && (a + b)[1..] == a[1..] + b;
      ConcatUnfolds(a);
      ConcatUnfolds(a + b);
      assert a[0] + (Concat(a[1..]) + Concat(b)) == (a[0] + Concat(a[1..])) + Concat(b);
    }
  }

  lemma RowsAppend(hs: Hashes, entries: seq<CorpusEntry>, a: seq<nat>, b: seq<nat>, cas: Cas)
    requires ReadableAll(entries, a) && ReadableAll(entries, b)
    requires Stored(RowsAt(hs, entries, a), cas) && Stored(RowsAt(hs, entries, b), cas)
    ensures ReadableAll(entries, a + b) && RowsAt(hs, entries, a + b) == RowsAt(hs, entries, a) + RowsAt(hs, entries, b)
    ensures Stored(RowsAt(hs, entries, a + b), cas)
  {
  }

  /** A successful merge is the rows of all the shares merged, in the order merged. */
  lemma {:induction false} MergedRows(hs: Hashes, entries: seq<CorpusEntry>, split: seq<seq<nat>>, s: State,
                                      tree: MergeTree)
    requires Inv(hs, entries, split, s) && Finished(s)
    requires Fits(tree, |split|) && Below(Visits(tree), |split|) && Reduce(tree, s).Ok?
    ensures var indices := Concat(Shares(split, Visits(tree)));
            && ReadableAll(entries, indices)
            && Reduce(tree, s).value == RowsAt(hs, entries, indices)
            && Stored(Reduce(tree, s).value, s.cas)
  {
    match tree
    case Identity =>
    case Of(w) =>
      assert WorkerGood(hs, entries, split[w], s.workers[w], s.cas);
      assert s.workers[w].done + [] == s.workers[w].done;
      assert Shares(split, [w]) == [split[w]];
      assert split[w] + [] == split[w];
    case Both(left, right) =>
      hide RowsAt, ReadableAll, Stored, Inv, Concat;
      FitsIsBelow(left, |split|);
      FitsIsBelow(right, |split|);
      MergedRows(hs, entries, split, s, left);
      MergedRows(hs, entries, split, s, right);
      assert Shares(split, Visits(tree)) == Shares(split, Visits(left)) + Shares(split, Visits(right));
      ConcatAppend(Shares(split, Visits(left)), Shares(split, Visits(right)));
      RowsAppend(hs, entries, Concat(Shares(split, Visits(left))), Concat(Shares(split, Visits(right))), s.cas);
  }

  /** A merge fails exactly when some worker merged has failed. */
  lemma {:induction false} MergeFails(s: State, tree: MergeTree)
    requires Fits(tree, |s.workers|)
    ensures Reduce(tree, s).Ok? <==> forall w: nat :: w < |s.workers| && w in Visits(tree) ==> s.workers[w].acc.Ok?
  {
    if tree.Both? {
      MergeFails(s, tree.left);
      MergeFails(s, tree.right);
    }
  }

  function CountIn(x: nat): seq<nat> -> nat {
    (part: seq<nat>) => multiset(part)[x]
  }

  lemma {:induction false} CountInConcat(x: nat, parts: seq<seq<nat>>)
    ensures multiset(Concat(parts))[x] == SumOf<seq<nat>>(CountIn(x), parts)
  {
    if parts != [] {
      CountInConcat(x, parts[1..]);
    }
  }

  function ShareCount(split: seq<seq<nat>>, x: nat): nat -> nat {
    (w: nat) => if w < |split| then multiset(split[w])[x] else 0
  }

  lemma {:induction false} SharesCount(split: seq<seq<nat>>, x: nat, order: seq<nat>)
    requires Below(order, |split|)
    ensures SumOf<seq<nat>>(CountIn(x), Shares(split, order)) == SumOf<nat>(ShareCount(split, x), order)
  {
    if order != [] {
      assert Shares(split, order)[1..] == Shares(split, order[1..]);
      SharesCount(split, x, order[1..]);
    }
  }

  /** Merging in any order covers what merging in another does. */
  lemma MergeOrderIrrelevant(split: seq<seq<nat>>, order: seq<nat>, order': seq<nat>)
    requires Below(order, |split|) && Below(order', |split|) && multiset(order) == multiset(order')
    ensures multiset(Concat(Shares(split, order))) == multiset(Concat(Shares(split, order')))
  {
    var a, b := multiset(Concat(Shares(split, order))), multiset(Concat(Shares(split, order')));
    forall x: nat
      ensures a[x] == b[x]
    {
      CountInConcat(x, Shares(split, order));
      CountInConcat(x, Shares(split, order'));
      SharesCount(split, x, order);
      SharesCount(split, x, order');
      SumOfPermutation<nat>(ShareCount(split, x), order, order');
    }
  }

  lemma PermutationOfUpto(order: seq<nat>, n: nat)
    requires multiset(order) == multiset(Upto(n))
    ensures Below(order, n) && forall w: nat :: w in order <==> w < n
  {
    SameMultisetSameMembers(order, Upto(n));
    forall w: nat
      ensures w in order <==> w < n
    {
      assert w < n ==> Upto(n)[w] == w;
    }
    forall k | 0 <= k < |order|
      ensures order[k] < n
    {
      assert order[k] in order;
    }
  }

  lemma SharesOfAll(split: seq<seq<nat>>)
    ensures Shares(split, Upto(|split|)) == split
  {
  }

  /** Whatever the order, merging everything covers every position once. */
  lemma MergeCoversAll(split: seq<seq<nat>>, tree: MergeTree, n: nat)
    requires IsSplit(split, n) && MergesAll(tree, |split|)
    ensures Fits(tree, |split|) && Below(Visits(tree), |split|)
    ensures multiset(Concat(Shares(split, Visits(tree)))) == multiset(Upto(n))
  {
    hide Concat, Visits, Shares, Fits, Below, Upto;
    PermutationOfUpto(Visits(tree), |split|);
    FitsIsBelow(tree, |split|);
    SharesOfAll(split);
    MergeOrderIrrelevant(split, Visits(tree), Upto(|split|));
  }

  // ------------------------------------------------------------------------
  // Schedule independence
  // ------------------------------------------------------------------------

  lemma OrdinalOrder()
    ensures TotalPreorder(OrdinalLeq)
  {
  }

  /** Rows of distinct positions are told apart by their ordinals. */
  lemma RowsDistinct(hs: Hashes, entries: seq<CorpusEntry>, indices: seq<nat>)
    requires ReadableAll(entries, indices) && NoRepeats(indices)
    ensures NoRepeats(RowsAt(hs, entries, indices)) && AntisymmetricOn(OrdinalLeq, RowsAt(hs, entries, indices))
  {
    var a := RowsAt(hs, entries, indices);
    forall i, j | 0 <= i < j < |a|
      ensures a[i].inputOrdinal != a[j].inputOrdinal
    {
      assert a[i].inputOrdinal == indices[i] && a[j].inputOrdinal == indices[j];
    }
    forall x, y | x in a && y in a && OrdinalLeq(x, y) && OrdinalLeq(y, x)
      ensures x == y
    {
      var i :| 0 <= i < |a| && a[i] == x;
      var j :| 0 <= j < |a| && a[j] == y;
    }
  }

  lemma RowsOfPermutation(hs: Hashes, entries: seq<CorpusEntry>, indices: seq<nat>)
    requires AllReadable(entries) && ReadableAll(entries, indices) && multiset(indices) == multiset(Upto(|entries|))
    ensures SortBy(OrdinalLeq, RowsAt(hs, entries, indices)) == RowsAt(hs, entries, Upto(|entries|))
  {
    hide SortBy, RowAt;
    var all := Upto(|entries|);
    var a, b := RowsAt(hs, entries, indices), RowsAt(hs, entries, all);
    assert NoRepeats(all);
    SameMultisetSameMembers(indices, all);
    RepeatsShowInMultiset(all);
    RepeatsShowInMultiset(indices);
    RowsDistinct(hs, entries, indices);
    RowsDistinct(hs, entries, all);
    forall r
      ensures r in a <==> r in b
    {
      RowMoves(hs, entries, indices, all, r);
      RowMoves(hs, entries, all, indices, r);
    }
    SameMembersSameMultiset(a, b);
    OrdinalOrder();
    SortOfPermutation(OrdinalLeq, a, b);
    OrdinalsAscend(hs, entries);
    SortOfSorted(OrdinalLeq, b);
  }

  lemma OrdinalsAscend(hs: Hashes, entries: seq<CorpusEntry>)
    requires AllReadable(entries)
    ensures SortedBy(OrdinalLeq, RowsAt(hs, entries, Upto(|entries|)))
  {
  }

  lemma RowMoves(hs: Hashes, entries: seq<CorpusEntry>, from: seq<nat>, to: seq<nat>, r: ManifestEntry)
    requires ReadableAll(entries, from) && ReadableAll(entries, to) && forall i :: i in from ==> i in to
    ensures r in RowsAt(hs, entries, from) ==> r in RowsAt(hs, entries, to)
  {
    var a, b := RowsAt(hs, entries, from), RowsAt(hs, entries, to);
    if r in a {
      var i :| 0 <= i < |a| && a[i] == r;
      assert from[i] in to;
      var j :| 0 <= j < |to| && to[j] == from[i];
      assert b[j] == r;
    }
  }

  // ------------------------------------------------------------------------
  // Every schedule seals the same corpus
  // ------------------------------------------------------------------------

  /** How one build went: the split, the interleaving, the merge. */
  datatype Schedule = Schedule(split: seq<seq<nat>>, choices: seq<Choice>, tree: MergeTree)

  function FinalState(hs: Hashes, entries: seq<CorpusEntry>, sch: Schedule, cas: Cas): State {
    Execute(hs, entries, Start(sch.split, cas), sch.choices)
  }

  /** Every entry goes to some worker, every worker finishes and is merged once. */
  ghost predicate Complete(hs: Hashes, entries: seq<CorpusEntry>, sch: Schedule, cas: Cas) {
    && IsSplit(sch.split, |entries|)
    && MergesAll(sch.tree, |sch.split|)
    && Fits(sch.tree, |sch.split|)
    && Finished(FinalState(hs, entries, sch, cas))
  }

  /** What the parallel phase hands to the epilogue. */
  function Collected(hs: Hashes, entries: seq<CorpusEntry>, sch: Schedule, cas: Cas)
    : Result<seq<ManifestEntry>, BuildError>
    requires Fits(sch.tree, |sch.split|)
  {
    Reduce(sch.tree, FinalState(hs, entries, sch, cas))
  }

  /** The sealed rows of a corpus, with no schedule in sight. */
  ghost function CorpusRows(hs: Hashes, entries: seq<CorpusEntry>): (rows: seq<ManifestEntry>)
    requires AllReadable(entries)
    ensures |rows| == |entries|
  {
    Sealed(RowsAt(hs, entries, Upto(|entries|)))
  }

  /** However the work is split, interleaved and merged, a build that succeeds seals the
      corpus's own rows, and each row's content is in the store. */
  lemma ScheduleIndependent(hs: Hashes, entries: seq<CorpusEntry>, sch: Schedule, cas: Cas)
    requires Honest(hs.blake3, cas) && Complete(hs, entries, sch, cas) && Collected(hs, entries, sch, cas).Ok?
    ensures AllReadable(entries)
    ensures Sealed(SortBy(OrdinalLeq, Collected(hs, entries, sch, cas).value)) == CorpusRows(hs, entries)
    ensures |Collected(hs, entries, sch, cas).value| == |entries|
    ensures var s := FinalState(hs, entries, sch, cas);
            Stored(CorpusRows(hs, entries), s.cas) && Honest(hs.blake3, s.cas)
  {
    var s := FinalState(hs, entries, sch, cas);
    RunInv(hs, entries, sch.split, cas, sch.choices);
    MergeCoversAll(sch.split, sch.tree, |entries|);
    MergedRows(hs, entries, sch.split, s, sch.tree);
    var indices := Concat(Shares(sch.split, Visits(sch.tree)));
    CoverageIsReadable(entries, indices);
    RowsOfPermutation(hs, entries, indices);
    SealedStaysStored(Collected(hs, entries, sch, cas).value, s.cas);
  }

  lemma CoverageIsReadable(entries: seq<CorpusEntry>, indices: seq<nat>)
    requires ReadableAll(entries, indices) && multiset(indices) == multiset(Upto(|entries|))
    ensures AllReadable(entries) && |indices| == |entries|
  {
    SameMultisetSameMembers(indices, Upto(|entries|));
    PermutationOfUpto(indices, |entries|);
    forall i | 0 <= i < |entries|
      ensures Contents(entries[i]).Some?
    {
      assert i in indices;
      var k :| 0 <= k < |indices| && indices[k] == i;
      assert Readable(entries, indices[k]);
    }
  }

  lemma SealedStaysStored(rows: seq<ManifestEntry>, cas: Cas)
    requires Stored(rows, cas)
    ensures Stored(Sealed(SortBy(OrdinalLeq, rows)), cas)
  {
    var sorted := SortBy(OrdinalLeq, rows);
    SortByPermutes(OrdinalLeq, rows);
    SameMultisetSameMembers(rows, sorted);
    forall k | 0 <= k < |Sealed(sorted)|
      ensures Sealed(sorted)[k].documentId in cas
    {
      var a := SealedFrom(sorted, k);
      assert sorted[a] in rows;
    }
  }

  ghost predicate NoFailure(s: State) {
    forall w :: 0 <= w < |s.workers| ==> s.workers[w].acc.Ok?
  }

  lemma {:induction false} RunWithoutFailure(hs: Hashes, entries: seq<CorpusEntry>, s: State, choices: seq<Choice>)
    requires AllReadable(entries) && NoFailure(s) && forall k :: 0 <= k < |choices| ==> choices[k].diskOk
    ensures NoFailure(Execute(hs, entries, s, choices))
    decreases |choices|
  {
    if choices != [] {
      RunWithoutFailure(hs, entries, s, choices[..|choices| - 1]);
    }
  }

  /** On a disk that works a build succeeds exactly when every entry can be read. */
  lemma SucceedsIffReadable(hs: Hashes, entries: seq<CorpusEntry>, sch: Schedule, cas: Cas)
    requires Honest(hs.blake3, cas) && Complete(hs, entries, sch, cas)
    requires forall k :: 0 <= k < |sch.choices| ==> sch.choices[k].diskOk
    ensures Collected(hs, entries, sch, cas).Ok? <==> AllReadable(entries)
  {
    if Collected(hs, entries, sch, cas).Ok? {
      ScheduleIndependent(hs, entries, sch, cas);
    }
    if AllReadable(entries) {
      RunWithoutFailure(hs, entries, Start(sch.split, cas), sch.choices);
      MergeFails(FinalState(hs, entries, sch, cas), sch.tree);
    }
  }

  // ------------------------------------------------------------------------
  // What the rows and the root say
  // ------------------------------------------------------------------------

  /** The bytes of an entry: what is in memory, or what reading its path yields. */
  ghost predicate HasBytes(e: CorpusEntry, bytes: Bytes) {
    e.content == InMemory(bytes) || e.content == Path(Some(bytes))
  }

  lemma ReadableMeans(entries: seq<CorpusEntry>)
    ensures AllReadable(entries) <==> forall i :: 0 <= i < |entries| ==> entries[i].content != Path(None)
  {
    forall i | 0 <= i < |entries|
      ensures Contents(entries[i]).Some? <==> entries[i].content != Path(None)
    {
    }
  }

  /** A sealed row is of the entry at its input ordinal: the two digests and the size of that
      entry's bytes, and its columns. */
  lemma SealedRowIsItsEntrys(hs: Hashes, entries: seq<CorpusEntry>, i: nat)
    requires AllReadable(entries) && i < |entries|
    ensures var row := CorpusRows(hs, entries)[i];
            && row.inputOrdinal < |entries|
            && var e := entries[row.inputOrdinal];
               && (exists bytes :: HasBytes(e, bytes) && row.documentId == hs.blake3(bytes)
                                   && row.sha256 == hs.sha256(bytes) && row.sizeBytes == |bytes|)
               && row.modality == e.modality && row.sourceUrl == Some(e.sourceUri) && row.sourceType == e.sourceType
               && row.sourceDatasetId == e.sourceDatasetId && row.licenseSpdx == e.licenseSpdx
               && row.language == e.language
  {
    var given := RowsAt(hs, entries, Upto(|entries|));
    var a := SealedFrom(given, i);
    assert Ranked(given)[a] == given[a].(occurrenceIndex := Rank(given, a));
    assert given[a] == RowAt(hs, entries, a);
    var bytes := Contents(entries[a]).value;
    assert HasBytes(entries[a], bytes);
  }

  /** No two sealed rows are of the same entry. */
  lemma EachEntryOnce(hs: Hashes, entries: seq<CorpusEntry>, i: nat, j: nat)
    requires AllReadable(entries) && i < j < |entries|
    ensures CorpusRows(hs, entries)[i].inputOrdinal != CorpusRows(hs, entries)[j].inputOrdinal
  {
    var given := RowsAt(hs, entries, Upto(|entries|));
    var a := SealedFrom(given, i);
    var b := SealedFrom(given, j);
    SealedDistinct(given, i, j);
    assert given[a] == RowAt(hs, entries, a) && given[b] == RowAt(hs, entries, b);
  }

  /** Sealed rows ascend by document id; each equal-digest group counts 0, 1, 2, ... and its
      rows keep their order of input. */
  lemma CorpusRowsInOrder(hs: Hashes, entries: seq<CorpusEntry>)
    requires AllReadable(entries)
    ensures var rows := CorpusRows(hs, entries);
            && SortedManifest(rows)
            && (forall i :: 0 <= i < |rows| ==> rows[i].occurrenceIndex == Rank(rows, i))
            && (forall i, j :: 0 <= i < j < |rows| && rows[i].documentId == rows[j].documentId ==>
                  rows[i].inputOrdinal < rows[j].inputOrdinal)
  {
    var given := RowsAt(hs, entries, Upto(|entries|));
    var rows := CorpusRows(hs, entries);
    SealedIds(given);
    forall i | 0 <= i < |rows|
      ensures rows[i].occurrenceIndex == Rank(rows, i)
    {
      SealedRank(given, i);
    }
    forall i, j | 0 <= i < j < |rows| && rows[i].documentId == rows[j].documentId
      ensures rows[i].inputOrdinal < rows[j].inputOrdinal
    {
      SealedOrdinals(given, i, j);
    }
  }

  ghost function ContentsOf(entries: seq<CorpusEntry>): (c: seq<Bytes>)
    requires AllReadable(entries)
    ensures |c| == |entries|
  {
    seq(|entries|, i requires 0 <= i < |entries| => Contents(entries[i]).value)
  }

  function Digests(H: Hasher, contents: seq<Bytes>): (ids: seq<Digest>)
    ensures |ids| == |contents|
  {
    seq(|contents|, i requires 0 <= i < |contents| => H(contents[i]))
  }

  ghost function CorpusRoot(hs: Hashes, entries: seq<CorpusEntry>): Digest
    requires AllReadable(entries)
  {
    MTH(hs.blake3, DocumentIds(CorpusRows(hs, entries)))
  }

  lemma CorpusIds(hs: Hashes, entries: seq<CorpusEntry>)
    requires AllReadable(entries)
    ensures DocumentIds(CorpusRows(hs, entries)) == SortBy(DigestLeq, Digests(hs.blake3, ContentsOf(entries)))
  {
    var given := RowsAt(hs, entries, Upto(|entries|));
    SealedIds(given);
    assert DocumentIds(given) == Digests(hs.blake3, ContentsOf(entries));
  }

  function HasDigest(H: Hasher, d: Digest): Bytes -> nat {
    (c: Bytes) => if H(c) == d then 1 else 0
  }

  lemma {:induction false} CountDigests(H: Hasher, d: Digest, contents: seq<Bytes>)
    ensures multiset(Digests(H, contents))[d] == SumOf(HasDigest(H, d), contents)
  {
    if contents == [] {
      assert Digests(H, contents) == [];
    } else {
      CountDigests(H, d, contents[1..]);
      assert Digests(H, contents) == [H(contents[0])] + Digests(H, contents[1..]);
    }
  }

  lemma DigestsOfPermutation(H: Hasher, a: seq<Bytes>, b: seq<Bytes>)
    requires multiset(a) == multiset(b)
    ensures multiset(Digests(H, a)) == multiset(Digests(H, b))
  {
    forall d: Digest
      ensures multiset(Digests(H, a))[d] == multiset(Digests(H, b))[d]
    {
      CountDigests(H, d, a);
      CountDigests(H, d, b);
      SumOfPermutation(HasDigest(H, d), a, b);
    }
  }

  /** The root depends on the contents as a multiset only: not on their order, nor on any
      other column. */
  lemma RootOfMultiset(hs: Hashes, a: seq<CorpusEntry>, b: seq<CorpusEntry>)
    requires AllReadable(a) && AllReadable(b) && multiset(ContentsOf(a)) == multiset(ContentsOf(b))
    ensures CorpusRoot(hs, a) == CorpusRoot(hs, b)
  {
    CorpusIds(hs, a);
    CorpusIds(hs, b);
    DigestsOfPermutation(hs.blake3, ContentsOf(a), ContentsOf(b));
    DigestOrder();
    SortOfPermutation(DigestLeq, Digests(hs.blake3, ContentsOf(a)), Digests(hs.blake3, ContentsOf(b)));
  }

  /** Different contents with the same digests collide somewhere. */
  lemma {:induction false} SameDigestsCollide(H: Hasher, a: seq<Bytes>, b: seq<Bytes>) returns (c: Collision)
    requires multiset(Digests(H, a)) == multiset(Digests(H, b)) && multiset(a) != multiset(b)
    ensures IsCollision(H, c) && c.0 in a && c.1 in b
    decreases |a|
  {
    SameMultisetSameMembers(Digests(H, a), Digests(H, b));
    assert a != [];
    assert Digests(H, a)[0] in Digests(H, b);
    var j :| 0 <= j < |b| && H(b[j]) == H(a[0]);
    if a[0] != b[j] {
      c := (a[0], b[j]);
    } else {
      WithoutMultiset(a, 0);
      WithoutMultiset(b, j);
      DigestsWithout(H, a, 0);
      DigestsWithout(H, b, j);
      RemovedStillDiffer(multiset(a), multiset(b), a[0]);
      c := SameDigestsCollide(H, Without(a, 0), Without(b, j));
    }
  }

  lemma RemovedStillDiffer(a: multiset<Bytes>, b: multiset<Bytes>, x: Bytes)
    requires a != b && x in a && x in b
    ensures a - multiset{x} != b - multiset{x}
  {
    assert a == (a - multiset{x}) + multiset{x} && b == (b - multiset{x}) + multiset{x};
  }

  lemma DigestsWithout(H: Hasher, s: seq<Bytes>, j: nat)
    requires j < |s|
    ensures multiset(Digests(H, Without(s, j))) == multiset(Digests(H, s)) - multiset{H(s[j])}
  {
    assert Digests(H, Without(s, j)) == Without(Digests(H, s), j);
    WithoutMultiset(Digests(H, s), j);
  }

  /** The root names the multiset of contents: corpora with the same root and different
      contents exhibit a collision among the inputs their builds hashed. */
  lemma RootNamesContents(hs: Hashes, a: seq<CorpusEntry>, b: seq<CorpusEntry>) returns (c: Collision)
    requires AllReadable(a) && AllReadable(b)
    requires CorpusRoot(hs, a) == CorpusRoot(hs, b) && multiset(ContentsOf(a)) != multiset(ContentsOf(b))
    ensures IsCollision(hs.blake3, c)
    ensures c.0 in ContentsOf(a) || c.0 in TreeInputs(hs.blake3, DocumentIds(CorpusRows(hs, a)))
    ensures c.1 in ContentsOf(b) || c.1 in TreeInputs(hs.blake3, DocumentIds(CorpusRows(hs, b)))
  {
    var x, y := DocumentIds(CorpusRows(hs, a)), DocumentIds(CorpusRows(hs, b));
    var found := RootCollision(hs.blake3, x, y);
    if found.Some? {
      c := found.value;
    } else {
      CorpusIds(hs, a);
      CorpusIds(hs, b);
      SortByPermutes(DigestLeq, Digests(hs.blake3, ContentsOf(a)));
      SortByPermutes(DigestLeq, Digests(hs.blake3, ContentsOf(b)));
      c := SameDigestsCollide(hs.blake3, ContentsOf(a), ContentsOf(b));
    }
  }
}
