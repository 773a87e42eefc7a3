/** What a build leaves in the content store, and what its error says, on every schedule. */
module PipelineMeaning {
  import opened Basics
  import opened Pipeline

  /** The bytes are those of some entry. */
  ghost predicate OfSomeEntry(entries: seq<CorpusEntry>, bytes: Bytes) {
    exists i :: 0 <= i < |entries| && HasBytes(entries[i], bytes)
  }

  /** The error names an entry, and on a disk that works one that cannot be read. */
  ghost predicate Blames(entries: seq<CorpusEntry>, e: BuildError, disk: bool) {
    exists i :: 0 <= i < |entries| && e == Io(entries[i].sourceUri) && (disk ==> entries[i].content == Path(None))
  }

  /** The store holds what it held, unchanged, and besides only contents of entries under their hash. */
  ghost predicate Grown(hs: Hashes, entries: seq<CorpusEntry>, before: Cas, after: Cas) {
    && (forall d :: d in before ==> d in after && after[d] == before[d])
    && (forall d :: d in after && d !in before ==> d == hs.blake3(after[d]) && OfSomeEntry(entries, after[d]))
  }

  ghost predicate ErrorsBlame(entries: seq<CorpusEntry>, s: State, disk: bool) {
    forall w :: 0 <= w < |s.workers| && s.workers[w].acc.Err? ==> Blames(entries, s.workers[w].acc.error, disk)
  }

  lemma RowMeans(hs: Hashes, entries: seq<CorpusEntry>, i: nat, before: Cas, cas: Cas, diskOk: bool, disk: bool)
    requires i < |entries| && Grown(hs, entries, before, cas) && (disk ==> diskOk)
    ensures var r := BuildRow(hs, i, entries[i], cas, diskOk);
            && (r.Ok? ==> Grown(hs, entries, before, r.value.1))
            && (r.Err? ==> Blames(entries, r.error, disk))
  {
    var e := entries[i];
    if Contents(e).Some? {
      assert HasBytes(e, Contents(e).value);
      assert OfSomeEntry(entries, Contents(e).value);
    }
  }

  lemma StepMeans(hs: Hashes, entries: seq<CorpusEntry>, before: Cas, s: State, c: Choice, disk: bool)
    requires Grown(hs, entries, before, s.cas) && ErrorsBlame(entries, s, disk) && (disk ==> c.diskOk)
    ensures var s' := Step(hs, entries, s, c); Grown(hs, entries, before, s'.cas) && ErrorsBlame(entries, s', disk)
  {
    hide Grown, Blames, BuildRow;
    if c.worker < |s.workers| && s.workers[c.worker].todo != [] && s.workers[c.worker].todo[0] < |entries| {
      RowMeans(hs, entries, s.workers[c.worker].todo[0], before, s.cas, c.diskOk, disk);
    }
  }

  lemma {:induction false} RunMeans(hs: Hashes, entries: seq<CorpusEntry>, split: seq<seq<nat>>, cas: Cas,
                                    choices: seq<Choice>, disk: bool)
    requires disk ==> forall k :: 0 <= k < |choices| ==> choices[k].diskOk
    ensures var s := Execute(hs, entries, Start(split, cas), choices);
            Grown(hs, entries, cas, s.cas) && ErrorsBlame(entries, s, disk)
    decreases |choices|
  {
    hide Blames, Step;
    if choices != [] {
      var front, last := choices[..|choices| - 1], choices[|choices| - 1];
      RunMeans(hs, entries, split, cas, front, disk);
      StepMeans(hs, entries, cas, Execute(hs, entries, Start(split, cas), front), last, disk);
    }
  }

  lemma {:induction false} MergeBlames(entries: seq<CorpusEntry>, s: State, tree: MergeTree, disk: bool)
    requires Fits(tree, |s.workers|) && ErrorsBlame(entries, s, disk)
    ensures Reduce(tree, s).Err? ==> Blames(entries, Reduce(tree, s).error, disk)
  {
    hide Blames;
    if tree.Both? {
      MergeBlames(entries, s, tree.left, disk);
      MergeBlames(entries, s, tree.right, disk);
    }
  }

  /** Whatever the schedule: the store keeps what it held, unchanged, and gains only contents of the
      corpus under their hash; and a build that fails names an entry, on a disk that works one that
      cannot be read. */
  lemma BuildMeans(hs: Hashes, entries: seq<CorpusEntry>, sch: Schedule, cas: Cas)
    requires Fits(sch.tree, |sch.split|)
    ensures Grown(hs, entries, cas, FinalState(hs, entries, sch, cas).cas)
    ensures var disk := forall k :: 0 <= k < |sch.choices| ==> sch.choices[k].diskOk;
            var r := Collected(hs, entries, sch, cas);
            r.Err? ==> Blames(entries, r.error, disk)
  {
    hide Grown, Blames, ErrorsBlame;
    var disk := forall k :: 0 <= k < |sch.choices| ==> sch.choices[k].diskOk;
    RunMeans(hs, entries, sch.split, cas, sch.choices, disk);
    MergeBlames(entries, FinalState(hs, entries, sch, cas), sch.tree, disk);
  }
}
