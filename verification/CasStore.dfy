/** `CasStore::put` as a protocol: any number of writers in any number of processes, each
    file-system call one atomic step, every call allowed to fail, any process allowed to
    crash between any two steps and its pid to be reused. */
module CasStore {
  import opened Basics

  type Pid = nat
  type WriterId = nat

  /** The pid and the process counter: the temp file's name. */
  type TempName = (Pid, u64)

  /** Where a put stands: the call it is about to make. */
  datatype Pc =
    | CheckFinal
    | MakeDir
    | TakeName
    | CreateNew(temp: TempName)
    | Writing(temp: TempName, written: nat)
    | Rename(temp: TempName)
    | RemoveTemp(temp: TempName)
    | RecheckFinal
    | Done(ok: bool)

  datatype Writer = Writer(pid: Pid, digest: Digest, contents: Bytes, pc: Pc)

  /** Final paths and temp files with their contents, per-process counters, puts in flight or
      returned. */
  datatype State = State(
    finals: map<Digest, Bytes>,
    temps: map<TempName, Bytes>,
    counters: map<Pid, u64>,
    writers: map<WriterId, Writer>)

  /** What each digest's content is. Callers hash what they put, so equal digests come with
      equal contents. */
  type ContentOf = Digest -> Bytes

  predicate Init(s: State) {
    s == State(map[], map[], map[], map[])
  }

  function Move(s: State, id: WriterId, pc: Pc): State
    requires id in s.writers
  {
    s.(writers := s.writers[id := s.writers[id].(pc := pc)])
  }

  function Counter(s: State, pid: Pid): u64 {
    if pid in s.counters then s.counters[pid] else 0
  }

  /** A caller starts a put. */
  predicate Begin(content: ContentOf, s: State, s': State, id: WriterId, pid: Pid, digest: Digest) {
    id !in s.writers && s' == s.(writers := s.writers[id := Writer(pid, digest, content(digest), CheckFinal)])
  }

  /** `Path::exists` answers no also when the call fails; its yes is true. */
  predicate CheckStep(s: State, s': State, id: WriterId)
    requires id in s.writers
  {
    var w := s.writers[id];
    w.pc.CheckFinal? && (s' == Move(s, id, MakeDir) || (w.digest in s.finals && s' == Move(s, id, Done(true))))
  }

  predicate MakeDirStep(s: State, s': State, id: WriterId)
    requires id in s.writers
  {
    s.writers[id].pc.MakeDir? && (s' == Move(s, id, TakeName) || s' == Move(s, id, Done(false)))
  }

  function Following(c: u64): u64 {
    if c == 0xFFFF_FFFF_FFFF_FFFF then 0 else c + 1
  }

  /** `fetch_add` on the process counter, which wraps. */
  predicate TakeNameStep(s: State, s': State, id: WriterId)
    requires id in s.writers
  {
    var w := s.writers[id];
    var c := Counter(s, w.pid);
    w.pc.TakeName? && s' == Move(s, id, CreateNew((w.pid, c))).(counters := s.counters[w.pid := Following(c)])
  }

  /** Exclusive creation: fails on a name that exists, and may fail otherwise. */
  predicate CreateStep(s: State, s': State, id: WriterId)
    requires id in s.writers
  {
    var pc := s.writers[id].pc;
    pc.CreateNew? &&
    (s' == Move(s, id, Done(false))
     || (pc.temp !in s.temps && s' == Move(s, id, Writing(pc.temp, 0)).(temps := s.temps[pc.temp := []])))
  }

  /** Some more bytes reach the file; once all have, it is synced; either call may fail, and
      then the temp file is left behind. */
  predicate WriteStep(s: State, s': State, id: WriterId)
    requires id in s.writers
  {
    var w := s.writers[id];
    w.pc.Writing? &&
    (s' == Move(s, id, Done(false))
     || (w.pc.written == |w.contents| && s' == Move(s, id, Rename(w.pc.temp)))
     || (exists n :: w.pc.written < n <= |w.contents| && w.pc.temp in s.temps &&
           s' == Move(s, id, Writing(w.pc.temp, n)).(
                   temps := s.temps[w.pc.temp := s.temps[w.pc.temp] + w.contents[w.pc.written..n]])))
  }

  /** The atomic rename replaces whatever the final path held. */
  predicate RenameStep(s: State, s': State, id: WriterId)
    requires id in s.writers
  {
    var w := s.writers[id];
    w.pc.Rename? &&
    (s' == Move(s, id, RemoveTemp(w.pc.temp))
     || (w.pc.temp in s.temps &&
         s' == Move(s, id, Done(true)).(
                 finals := s.finals[w.digest := s.temps[w.pc.temp]], temps := s.temps - {w.pc.temp})))
  }

  predicate RemoveStep(s: State, s': State, id: WriterId)
    requires id in s.writers
  {
    var pc := s.writers[id].pc;
    pc.RemoveTemp? &&
    (s' == Move(s, id, RecheckFinal) || s' == Move(s, id, RecheckFinal).(temps := s.temps - {pc.temp}))
  }

  predicate RecheckStep(s: State, s': State, id: WriterId)
    requires id in s.writers
  {
    var w := s.writers[id];
    w.pc.RecheckFinal? && (s' == Move(s, id, Done(false)) || (w.digest in s.finals && s' == Move(s, id, Done(true))))
  }

  predicate WriterStep(s: State, s': State, id: WriterId) {
    id in s.writers &&
    (CheckStep(s, s', id) || MakeDirStep(s, s', id) || TakeNameStep(s, s', id) || CreateStep(s, s', id)
     || WriteStep(s, s', id) || RenameStep(s, s', id) || RemoveStep(s, s', id) || RecheckStep(s, s', id))
  }

  /** A process dies: its puts vanish, its counter restarts, its temp files stay. */
  predicate Crash(s: State, s': State, pid: Pid) {
    && s'.finals == s.finals && s'.temps == s.temps
    && s'.counters == s.counters - {pid}
    && s'.writers == map id | id in s.writers && s.writers[id].pid != pid :: s.writers[id]
  }

  ghost predicate Next(content: ContentOf, s: State, s': State) {
    (exists id, pid, digest :: Begin(content, s, s', id, pid, digest))
    || (exists id :: WriterStep(s, s', id))
    || (exists pid :: Crash(s, s', pid))
  }

  ghost predicate IsRun(content: ContentOf, run: seq<State>) {
    run != [] && Init(run[0]) && forall i :: 0 <= i < |run| - 1 ==> Next(content, run[i], run[i + 1])
  }

  // ------------------------------------------------------------------------
  // The invariant
  // ------------------------------------------------------------------------

  /** The put has created its temp file and not yet given it up. */
  predicate Owns(pc: Pc) {
    pc.Writing? || pc.Rename? || pc.RemoveTemp?
  }

  predicate WriterGood(content: ContentOf, s: State, w: Writer) {
    && w.contents == content(w.digest)
    && (Owns(w.pc) ==> w.pc.temp in s.temps)
    && (w.pc.Writing? ==> w.pc.written <= |w.contents| && s.temps[w.pc.temp] == w.contents[..w.pc.written])
    && (w.pc.Rename? ==> s.temps[w.pc.temp] == w.contents)
    && (w.pc.Done? && w.pc.ok ==> w.digest in s.finals)
  }

  predicate Separate(a: Writer, b: Writer) {
    Owns(a.pc) && Owns(b.pc) ==> a.pc.temp != b.pc.temp
  }

  ghost predicate Inv(content: ContentOf, s: State) {
    && (forall d :: d in s.finals ==> s.finals[d] == content(d))
    && (forall id :: id in s.writers ==> WriterGood(content, s, s.writers[id]))
    && (forall a, b :: a in s.writers && b in s.writers && a != b ==> Separate(s.writers[a], s.writers[b]))
  }

  lemma InitInv(content: ContentOf, s: State)
    requires Init(s)
    ensures Inv(content, s)
  {
  }

  /** What a writer's step may do to the rest of the state. */
  ghost predicate OwnEffect(content: ContentOf, s: State, s': State, id: WriterId)
    requires id in s.writers
  {
    var w := s.writers[id];
    && id in s'.writers && s'.writers == s.writers[id := s'.writers[id]]
    && WriterGood(content, s', s'.writers[id])
    && (Owns(s'.writers[id].pc) ==>
          (Owns(w.pc) && s'.writers[id].pc.temp == w.pc.temp) || s'.writers[id].pc.temp !in s.temps)
    && (forall t :: t in s.temps && !(Owns(w.pc) && w.pc.temp == t) ==> t in s'.temps && s'.temps[t] == s.temps[t])
    && (forall d :: d in s.finals ==> d in s'.finals)
    && (forall d :: d in s'.finals ==> s'.finals[d] == content(d))
  }

  lemma WriteStepEffect(content: ContentOf, s: State, s': State, id: WriterId)
    requires Inv(content, s) && id in s.writers && WriteStep(s, s', id)
    ensures OwnEffect(content, s, s', id)
  {
    var w := s.writers[id];
    assert WriterGood(content, s, w);
    assert w.contents[..|w.contents|] == w.contents;
    if n :| w.pc.written < n <= |w.contents| &&
            s' == Move(s, id, Writing(w.pc.temp, n)).(
                    temps := s.temps[w.pc.temp := s.temps[w.pc.temp] + w.contents[w.pc.written..n]])
    {
      assert w.contents[..w.pc.written] + w.contents[w.pc.written..n] == w.contents[..n];
    }
  }

  lemma RenameStepEffect(content: ContentOf, s: State, s': State, id: WriterId)
    requires Inv(content, s) && id in s.writers && RenameStep(s, s', id)
    ensures OwnEffect(content, s, s', id)
  {
    assert WriterGood(content, s, s.writers[id]);
  }

  lemma CreateStepEffect(content: ContentOf, s: State, s': State, id: WriterId)
    requires Inv(content, s) && id in s.writers && CreateStep(s, s', id)
    ensures OwnEffect(content, s, s', id)
  {
    assert WriterGood(content, s, s.writers[id]);
  }

  lemma RemoveStepEffect(content: ContentOf, s: State, s': State, id: WriterId)
    requires Inv(content, s) && id in s.writers && RemoveStep(s, s', id)
    ensures OwnEffect(content, s, s', id)
  {
    assert WriterGood(content, s, s.writers[id]);
  }

  /** The steps that touch neither temp files nor final paths. */
  lemma QuietStepEffect(content: ContentOf, s: State, s': State, id: WriterId)
    requires Inv(content, s) && id in s.writers
    requires CheckStep(s, s', id) || MakeDirStep(s, s', id) || RecheckStep(s, s', id)
    ensures OwnEffect(content, s, s', id)
  {
    assert WriterGood(content, s, s.writers[id]);
  }

  lemma TakeNameStepEffect(content: ContentOf, s: State, s': State, id: WriterId)
    requires Inv(content, s) && id in s.writers && TakeNameStep(s, s', id)
    ensures OwnEffect(content, s, s', id)
  {
    hide Counter, Following;
    assert WriterGood(content, s, s.writers[id]);
  }

  lemma WriterStepEffect(content: ContentOf, s: State, s': State, id: WriterId)
    requires Inv(content, s) && WriterStep(s, s', id)
    ensures id in s.writers && OwnEffect(content, s, s', id)
  {
    hide OwnEffect, Inv, WriteStep, RenameStep, CreateStep, RemoveStep, CheckStep, MakeDirStep, TakeNameStep,
         RecheckStep;
    if WriteStep(s, s', id) {
      WriteStepEffect(content, s, s', id);
    } else if RenameStep(s, s', id) {
      RenameStepEffect(content, s, s', id);
    } else if CreateStep(s, s', id) {
      CreateStepEffect(content, s, s', id);
    } else if RemoveStep(s, s', id) {
      RemoveStepEffect(content, s, s', id);
    } else if TakeNameStep(s, s', id) {
      TakeNameStepEffect(content, s, s', id);
    } else {
      QuietStepEffect(content, s, s', id);
    }
  }

  lemma OwnEffectKeepsInv(content: ContentOf, s: State, s': State, id: WriterId)
    requires Inv(content, s) && id in s.writers && OwnEffect(content, s, s', id)
    ensures Inv(content, s')
  {
    forall v | v in s'.writers
      ensures WriterGood(content, s', s'.writers[v])
    {
      if v != id {
        assert WriterGood(content, s, s.writers[v]) && Separate(s.writers[v], s.writers[id]);
      }
    }
    forall a, b | a in s'.writers && b in s'.writers && a != b
      ensures Separate(s'.writers[a], s'.writers[b])
    {
      assert Separate(s.writers[a], s.writers[b]);
      assert WriterGood(content, s, s.writers[a]) && WriterGood(content, s, s.writers[b]);
    }
  }

  lemma WriterStepInv(content: ContentOf, s: State, s': State, id: WriterId)
    requires Inv(content, s) && WriterStep(s, s', id)
    ensures Inv(content, s')
  {
    WriterStepEffect(content, s, s', id);
    OwnEffectKeepsInv(content, s, s', id);
  }

  lemma BeginInv(content: ContentOf, s: State, s': State, id: WriterId, pid: Pid, digest: Digest)
    requires Inv(content, s) && Begin(content, s, s', id, pid, digest)
    ensures Inv(content, s')
  {
    forall v | v in s'.writers
      ensures WriterGood(content, s', s'.writers[v])
    {
      if v != id {
        assert WriterGood(content, s, s.writers[v]);
      }
    }
  }

  lemma CrashInv(content: ContentOf, s: State, s': State, pid: Pid)
    requires Inv(content, s) && Crash(s, s', pid)
    ensures Inv(content, s')
  {
    forall v | v in s'.writers
      ensures WriterGood(content, s', s'.writers[v])
    {
      assert WriterGood(content, s, s.writers[v]);
    }
  }

  lemma NextInv(content: ContentOf, s: State, s': State)
    requires Inv(content, s) && Next(content, s, s')
    ensures Inv(content, s')
  {
    hide Inv, WriterStep, Begin, Crash;
    if id :| WriterStep(s, s', id) {
      WriterStepInv(content, s, s', id);
    } else if id, pid, digest :| Begin(content, s, s', id, pid, digest) {
      BeginInv(content, s, s', id, pid, digest);
    } else {
      var pid :| Crash(s, s', pid);
      CrashInv(content, s, s', pid);
    }
  }

  /** A step never removes or changes a final path. */
  lemma NextKeepsFinals(content: ContentOf, s: State, s': State)
    requires Inv(content, s) && Next(content, s, s')
    ensures forall d :: d in s.finals ==> d in s'.finals && s'.finals[d] == s.finals[d]
  {
    hide WriterStep, OwnEffect, Inv;
    if id :| WriterStep(s, s', id) {
      WriterStepEffect(content, s, s', id);
      EffectKeepsFinals(content, s, s', id);
    }
  }

  lemma EffectKeepsFinals(content: ContentOf, s: State, s': State, id: WriterId)
    requires Inv(content, s) && id in s.writers && OwnEffect(content, s, s', id)
    ensures forall d :: d in s.finals ==> d in s'.finals && s'.finals[d] == s.finals[d]
  {
  }

  // ------------------------------------------------------------------------
  // Every run
  // ------------------------------------------------------------------------

  lemma {:induction false} RunInv(content: ContentOf, run: seq<State>, i: nat)
    requires IsRun(content, run) && i < |run|
    ensures Inv(content, run[i])
  {
    if i == 0 {
      InitInv(content, run[0]);
    } else {
      RunInv(content, run, i - 1);
      assert Next(content, run[i - 1], run[i - 1 + 1]);
      NextInv(content, run[i - 1], run[i]);
    }
  }

  /** Atomicity: at every moment of every run a reader finds at a final path nothing or the
      complete content, and no two live puts share a temp file. */
  lemma AbsentOrComplete(content: ContentOf, run: seq<State>, i: nat, d: Digest)
    requires IsRun(content, run) && i < |run|
    ensures d in run[i].finals ==> run[i].finals[d] == content(d)
    ensures forall a, b :: a in run[i].writers && b in run[i].writers && a != b ==>
              Separate(run[i].writers[a], run[i].writers[b])
  {
    RunInv(content, run, i);
  }

  lemma RunStep(content: ContentOf, run: seq<State>, i: nat)
    requires IsRun(content, run) && i + 1 < |run|
    ensures Next(content, run[i], run[i + 1])
  {
  }

  /** Persistence: once present, a final path stays, unchanged, whatever crashes. */
  lemma {:induction false} FinalsPersist(content: ContentOf, run: seq<State>, i: nat, j: nat, d: Digest)
    requires IsRun(content, run) && i <= j < |run| && d in run[i].finals
    ensures d in run[j].finals && run[j].finals[d] == run[i].finals[d]
    decreases j
  {
    hide *;
    if i < j {
      FinalsPersist(content, run, i, j - 1, d);
      RunInv(content, run, j - 1);
      RunStep(content, run, j - 1);
      NextKeepsFinals(content, run[j - 1], run[j]);
    }
  }

  /** A put that has returned Ok left its content at the final path, for good. */
  lemma OkMeansPresent(content: ContentOf, run: seq<State>, i: nat, j: nat, id: WriterId)
    requires IsRun(content, run) && i <= j < |run|
    requires id in run[i].writers && run[i].writers[id].pc == Done(true)
    ensures var w := run[i].writers[id]; w.digest in run[j].finals && run[j].finals[w.digest] == w.contents
  {
    RunInv(content, run, i);
    RunInv(content, run, j);
    assert WriterGood(content, run[i], run[i].writers[id]);
    FinalsPersist(content, run, i, j, run[i].writers[id].digest);
  }

  // ------------------------------------------------------------------------
  // Temp names
  // ------------------------------------------------------------------------

  /** The put has taken a temp name. */
  predicate HasName(pc: Pc) {
    pc.CreateNew? || pc.Writing? || pc.Rename? || pc.RemoveTemp?
  }

  /** A name is of the put's own process, with a number that process has already counted past. */
  predicate NamedByOwn(s: State, w: Writer) {
    HasName(w.pc) ==> w.pc.temp.0 == w.pid && w.pc.temp.1 < Counter(s, w.pid)
  }

  predicate NamesDiffer(a: Writer, b: Writer) {
    HasName(a.pc) && HasName(b.pc) ==> a.pc.temp != b.pc.temp
  }

  ghost predicate NamesApart(s: State) {
    && (forall id :: id in s.writers ==> NamedByOwn(s, s.writers[id]))
    && (forall a, b :: a in s.writers && b in s.writers && a != b ==> NamesDiffer(s.writers[a], s.writers[b]))
  }

  /** No process has used up its counter. */
  ghost predicate CountersLast(s: State) {
    forall pid :: Counter(s, pid) < 0xFFFF_FFFF_FFFF_FFFF
  }

  /** A step changes one put, and takes its name, if a new one, from the counter it moves on. */
  ghost predicate NameEffect(s: State, s': State, id: WriterId)
    requires id in s.writers
  {
    && id in s'.writers && s'.writers == s.writers[id := s'.writers[id]] && s'.writers[id].pid == s.writers[id].pid
    && var w, w' := s.writers[id], s'.writers[id];
       if w.pc.TakeName? then
         && HasName(w'.pc) && w'.pc.temp == (w.pid, Counter(s, w.pid))
         && forall p :: Counter(s', p) == if p == w.pid then Counter(s, p) + 1 else Counter(s, p)
       else s'.counters == s.counters && (HasName(w'.pc) ==> HasName(w.pc) && w'.pc.temp == w.pc.temp)
  }

  lemma StepNames(s: State, s': State, id: WriterId)
    requires WriterStep(s, s', id) && CountersLast(s)
    ensures id in s.writers && NameEffect(s, s', id)
  {
    hide Counter, Following, WriteStep, RenameStep, CreateStep, RemoveStep, CheckStep, MakeDirStep, TakeNameStep,
         RecheckStep, NameEffect, CountersLast;
    if TakeNameStep(s, s', id) {
      TakenName(s, s', id);
    } else if WriteStep(s, s', id) || CreateStep(s, s', id) {
      KeptNames(s, s', id);
    } else if RenameStep(s, s', id) || RemoveStep(s, s', id) {
      GivenUpNames(s, s', id);
    } else {
      NoNames(s, s', id);
    }
  }

  lemma TakenName(s: State, s': State, id: WriterId)
    requires id in s.writers && TakeNameStep(s, s', id) && CountersLast(s)
    ensures NameEffect(s, s', id)
  {
    assert Counter(s, s.writers[id].pid) < 0xFFFF_FFFF_FFFF_FFFF;
  }

  lemma KeptNames(s: State, s': State, id: WriterId)
    requires id in s.writers && (WriteStep(s, s', id) || CreateStep(s, s', id))
    ensures NameEffect(s, s', id)
  {
    hide Counter;
  }

  lemma GivenUpNames(s: State, s': State, id: WriterId)
    requires id in s.writers && (RenameStep(s, s', id) || RemoveStep(s, s', id))
    ensures NameEffect(s, s', id)
  {
    hide Counter;
  }

  lemma NoNames(s: State, s': State, id: WriterId)
    requires id in s.writers && (CheckStep(s, s', id) || MakeDirStep(s, s', id) || RecheckStep(s, s', id))
    ensures NameEffect(s, s', id)
  {
    hide Counter;
  }

  lemma EffectKeepsNamesApart(s: State, s': State, id: WriterId)
    requires NamesApart(s) && id in s.writers && NameEffect(s, s', id)
    ensures NamesApart(s')
  {
    forall v | v in s'.writers
      ensures NamedByOwn(s', s'.writers[v])
    {
      assert NamedByOwn(s, s.writers[v]);
    }
    forall a, b | a in s'.writers && b in s'.writers && a != b
      ensures NamesDiffer(s'.writers[a], s'.writers[b])
    {
      assert NamesDiffer(s.writers[a], s.writers[b]);
      assert NamedByOwn(s, s.writers[a]) && NamedByOwn(s, s.writers[b]);
    }
  }

  lemma OthersKeepNamesApart(content: ContentOf, s: State, s': State)
    requires NamesApart(s)
    requires (exists id, pid, digest :: Begin(content, s, s', id, pid, digest)) || exists pid :: Crash(s, s', pid)
    ensures NamesApart(s')
  {
    forall v | v in s'.writers
      ensures NamedByOwn(s', s'.writers[v])
    {
      assert v in s.writers ==> NamedByOwn(s, s.writers[v]);
    }
    forall a, b | a in s'.writers && b in s'.writers && a != b
      ensures NamesDiffer(s'.writers[a], s'.writers[b])
    {
      assert a in s.writers && b in s.writers ==> NamesDiffer(s.writers[a], s.writers[b]);
    }
  }

  /** As long as no counter wraps, no two puts in flight have the same temp name, not even before
      they create the file; pids may be reused after crashes. */
  lemma {:induction false} NamesStayApart(content: ContentOf, run: seq<State>, i: nat)
    requires IsRun(content, run) && i < |run| && forall k :: 0 <= k < i ==> CountersLast(run[k])
    ensures NamesApart(run[i])
  {
    hide NamesApart, NameEffect, WriterStep, Begin, Crash, CountersLast;
    if i == 0 {
      NoNamesYet(run[0]);
    } else {
      NamesStayApart(content, run, i - 1);
      RunStep(content, run, i - 1);
      var s, s' := run[i - 1], run[i];
      if id :| WriterStep(s, s', id) {
        StepNames(s, s', id);
        EffectKeepsNamesApart(s, s', id);
      } else {
        OthersKeepNamesApart(content, s, s');
      }
    }
  }

  lemma NoNamesYet(s: State)
    requires Init(s)
    ensures NamesApart(s)
  {
  }

  // ------------------------------------------------------------------------
  // A reused pid
  // ------------------------------------------------------------------------

  /** A put whose name is taken can only fail, and does not touch the file that has it. */
  lemma TakenNameFails(s: State, s': State, id: WriterId)
    requires id in s.writers && s.writers[id].pc.CreateNew? && s.writers[id].pc.temp in s.temps
    requires WriterStep(s, s', id)
    ensures s' == Move(s, id, Done(false))
  {
  }

  /** A put of the given content, at the given call. */
  function PutAt(content: ContentOf, d: Digest, pc: Pc): Writer {
    Writer(0, d, content(d), pc)
  }

  /** One put, of process 0. */
  function Lone(content: ContentOf, d: Digest, pc: Pc, temps: map<TempName, Bytes>, counters: map<Pid, u64>): State {
    State(map[], temps, counters, map[0 := PutAt(content, d, pc)])
  }

  /** A process dies after creating its first temp file, another gets its pid, and the new one's
      first put takes the very name the file has: its counter starts at zero again. */
  lemma ReusedPidMeetsLeftover(content: ContentOf, d: Digest) returns (run: seq<State>)
    ensures IsRun(content, run)
    ensures var s := run[|run| - 1];
            0 in s.writers && s.writers[0].pc.CreateNew? && s.writers[0].pc.temp in s.temps
  {
    hide Next;
    var name: TempName := (0, 0);
    var left: map<TempName, Bytes> := map[name := []];
    run := [
      State(map[], map[], map[], map[]),
      Lone(content, d, CheckFinal, map[], map[]),
      Lone(content, d, MakeDir, map[], map[]),
      Lone(content, d, TakeName, map[], map[]),
      Lone(content, d, CreateNew(name), map[], map[0 := 1]),
      Lone(content, d, Writing(name, 0), left, map[0 := 1]),
      State(map[], left, map[], map[]),
      Lone(content, d, CheckFinal, left, map[]),
      Lone(content, d, MakeDir, left, map[]),
      Lone(content, d, TakeName, left, map[]),
      Lone(content, d, CreateNew(name), left, map[0 := 1])];
    StartsOrDies(content, d, map[], map[]);
    StartsOrDies(content, d, left, map[0 := 1]);
    StartsOrDies(content, d, left, map[]);
    UpToCreation(content, d, map[]);
    UpToCreation(content, d, left);
    FileCreated(content, d);
  }

  lemma StartsOrDies(content: ContentOf, d: Digest, temps: map<TempName, Bytes>, counters: map<Pid, u64>)
    requires counters in {map[], map[0 := 1]}
    ensures counters == map[] ==>
              Next(content, State(map[], temps, map[], map[]), Lone(content, d, CheckFinal, temps, map[]))
    ensures Next(content, Lone(content, d, Writing((0, 0), 0), temps, counters), State(map[], temps, map[], map[]))
  {
    var gone := State(map[], temps, map[], map[]);
    assert Begin(content, gone, Lone(content, d, CheckFinal, temps, map[]), 0, 0, d);
    assert Crash(Lone(content, d, Writing((0, 0), 0), temps, counters), gone, 0);
  }

  lemma UpToCreation(content: ContentOf, d: Digest, temps: map<TempName, Bytes>)
    ensures Next(content, Lone(content, d, CheckFinal, temps, map[]), Lone(content, d, MakeDir, temps, map[]))
    ensures Next(content, Lone(content, d, MakeDir, temps, map[]), Lone(content, d, TakeName, temps, map[]))
    ensures Next(content, Lone(content, d, TakeName, temps, map[]),
                 Lone(content, d, CreateNew((0, 0)), temps, map[0 := 1]))
  {
    assert WriterStep(Lone(content, d, CheckFinal, temps, map[]), Lone(content, d, MakeDir, temps, map[]), 0);
    assert WriterStep(Lone(content, d, MakeDir, temps, map[]), Lone(content, d, TakeName, temps, map[]), 0);
    assert WriterStep(Lone(content, d, TakeName, temps, map[]),
                      Lone(content, d, CreateNew((0, 0)), temps, map[0 := 1]), 0);
  }

  lemma FileCreated(content: ContentOf, d: Digest)
    ensures Next(content, Lone(content, d, CreateNew((0, 0)), map[], map[0 := 1]),
                 Lone(content, d, Writing((0, 0), 0), map[(0, 0) := []], map[0 := 1]))
  {
    assert WriterStep(Lone(content, d, CreateNew((0, 0)), map[], map[0 := 1]),
                      Lone(content, d, Writing((0, 0), 0), map[(0, 0) := []], map[0 := 1]), 0);
  }

  // ------------------------------------------------------------------------
  // Progress
  // ------------------------------------------------------------------------

  /** How many steps of its own a put has left at most. */
  function StepsLeft(w: Writer): nat {
    match w.pc
    case CheckFinal => |w.contents| + 8
    case MakeDir => |w.contents| + 7
    case TakeName => |w.contents| + 6
    case CreateNew(_) => |w.contents| + 5
    case Writing(_, n) => if n <= |w.contents| then |w.contents| - n + 4 else 4
    case Rename(_) => 3
    case RemoveTemp(_) => 2
    case RecheckFinal => 1
    case Done(_) => 0
  }

  /** A step the put can take whatever the others do: its call returns, if only with an error. */
  function SomeStep(s: State, id: WriterId): State
    requires id in s.writers
  {
    var w := s.writers[id];
    match w.pc
    case CheckFinal => Move(s, id, if w.digest in s.finals then Done(true) else MakeDir)
    case MakeDir => Move(s, id, TakeName)
    case TakeName =>
      var c := Counter(s, w.pid);
      Move(s, id, CreateNew((w.pid, c))).(counters := s.counters[w.pid := Following(c)])
    case CreateNew(_) => Move(s, id, Done(false))
    case Writing(_, _) => Move(s, id, Done(false))
    case Rename(t) => Move(s, id, RemoveTemp(t))
    case RemoveTemp(_) => Move(s, id, RecheckFinal)
    case RecheckFinal => Move(s, id, Done(w.digest in s.finals))
    case Done(_) => s
  }

  /** The step in which the call succeeds. */
  function GoodStep(s: State, id: WriterId): State
    requires id in s.writers
  {
    var w := s.writers[id];
    match w.pc
    case CreateNew(t) => Move(s, id, Writing(t, 0)).(temps := s.temps[t := []])
    case Writing(t, n) =>
      if n < |w.contents| && t in s.temps
      then Move(s, id, Writing(t, |w.contents|)).(temps := s.temps[t := s.temps[t] + w.contents[n..]])
      else Move(s, id, Rename(t))
    case Rename(t) =>
      if t !in s.temps then s
      else Move(s, id, Done(true)).(finals := s.finals[w.digest := s.temps[t]], temps := s.temps - {t})
    case RemoveTemp(t) => Move(s, id, RecheckFinal).(temps := s.temps - {t})
    case _ => SomeStep(s, id)
  }

  /** No file has the name the put has taken or is about to take. */
  predicate NameFree(s: State, w: Writer) {
    match w.pc
    case CheckFinal => (w.pid, Counter(s, w.pid)) !in s.temps
    case MakeDir => (w.pid, Counter(s, w.pid)) !in s.temps
    case TakeName => (w.pid, Counter(s, w.pid)) !in s.temps
    case CreateNew(t) => t !in s.temps
    case _ => true
  }

  /** No call of the put has failed so far. */
  predicate OnCourse(pc: Pc) {
    !pc.RemoveTemp? && !pc.RecheckFinal? && pc != Done(false)
  }

  lemma WriteAllAvailable(s: State, id: WriterId)
    requires id in s.writers && s.writers[id].pc.Writing? && s.writers[id].pc.temp in s.temps
    requires s.writers[id].pc.written <= |s.writers[id].contents|
    ensures WriteStep(s, GoodStep(s, id), id)
  {
    var w := s.writers[id];
    assert w.contents[w.pc.written..] == w.contents[w.pc.written..|w.contents|];
  }

  lemma GoodStepAvailable(content: ContentOf, s: State, id: WriterId)
    requires Inv(content, s) && id in s.writers && !s.writers[id].pc.Done? && NameFree(s, s.writers[id])
    ensures WriterStep(s, GoodStep(s, id), id)
    ensures var w' := GoodStep(s, id).writers[id];
            OnCourse(s.writers[id].pc) ==> OnCourse(w'.pc) && NameFree(GoodStep(s, id), w')
  {
    assert WriterGood(content, s, s.writers[id]);
    if s.writers[id].pc.Writing? {
      WriteAllAvailable(s, id);
    }
  }

  /** The put's next k steps, all calls succeeding and nobody else moving. */
  function GoodRun(s: State, id: WriterId, k: nat): (r: State)
    requires id in s.writers
    ensures id in r.writers
    decreases k
  {
    if k == 0 || s.writers[id].pc.Done? then s else GoodRun(GoodStep(s, id), id, k - 1)
  }

  /** Undisturbed, with a free temp name, a put goes through: after the steps it has left it has
      returned Ok, and by then its content is at the final path. */
  lemma {:induction false} UndisturbedPutSucceeds(content: ContentOf, s: State, id: WriterId, k: nat)
    requires Inv(content, s) && id in s.writers && OnCourse(s.writers[id].pc) && NameFree(s, s.writers[id])
    requires k >= StepsLeft(s.writers[id])
    ensures var r := GoodRun(s, id, k);
            && r.writers[id].pc == Done(true) && r.writers[id].digest == s.writers[id].digest
            && s.writers[id].digest in r.finals && r.finals[s.writers[id].digest] == content(s.writers[id].digest)
    decreases k
  {
    hide Inv, StepsLeft, NameFree, GoodStep, WriterStep, WriterGood;
    if s.writers[id].pc.Done? {
      DoneIsPresent(content, s, id);
    } else {
      GoodStepAvailable(content, s, id);
      StepBringsNearer(content, s, GoodStep(s, id), id);
      WriterStepInv(content, s, GoodStep(s, id), id);
      GoodStepKeepsDigest(s, id);
      UndisturbedPutSucceeds(content, GoodStep(s, id), id, k - 1);
    }
  }

  /** Idempotence: a put of what is present returns Ok at its first step and writes nothing. */
  lemma PresentPutReturns(content: ContentOf, s: State, id: WriterId, k: nat)
    requires Inv(content, s) && id in s.writers && s.writers[id].pc.CheckFinal? && k >= 1
    requires s.writers[id].digest in s.finals
    ensures WriterStep(s, GoodStep(s, id), id)
    ensures var r := GoodRun(s, id, k);
            && r.writers[id].pc == Done(true)
            && r.finals == s.finals && r.temps == s.temps && r.counters == s.counters
            && forall v :: v in s.writers && v != id ==> v in r.writers && r.writers[v] == s.writers[v]
  {
    StepAvailable(content, s, id);
    var next := GoodStep(s, id);
    assert next.writers[id].pc == Done(true);
    assert GoodRun(next, id, k - 1) == next;
  }

  lemma DoneIsPresent(content: ContentOf, s: State, id: WriterId)
    requires Inv(content, s) && id in s.writers && s.writers[id].pc == Done(true)
    ensures s.writers[id].digest in s.finals && s.finals[s.writers[id].digest] == content(s.writers[id].digest)
  {
    assert WriterGood(content, s, s.writers[id]);
  }

  lemma GoodStepKeepsDigest(s: State, id: WriterId)
    requires id in s.writers
    ensures id in GoodStep(s, id).writers && GoodStep(s, id).writers[id].digest == s.writers[id].digest
  {
    hide Counter, Following;
  }

  lemma StepAvailable(content: ContentOf, s: State, id: WriterId)
    requires Inv(content, s) && id in s.writers && !s.writers[id].pc.Done?
    ensures WriterStep(s, SomeStep(s, id), id)
  {
    assert WriterGood(content, s, s.writers[id]);
  }

  lemma WriteBringsNearer(s: State, s': State, id: WriterId)
    requires id in s.writers && WriteStep(s, s', id)
    requires s.writers[id].pc.Writing? && s.writers[id].pc.written <= |s.writers[id].contents|
    ensures id in s'.writers && StepsLeft(s'.writers[id]) < StepsLeft(s.writers[id])
  {
  }

  lemma WritingBounded(content: ContentOf, s: State, s': State, id: WriterId)
    requires id in s.writers && WriterGood(content, s, s.writers[id]) && WriteStep(s, s', id)
    ensures s.writers[id].pc.Writing? && s.writers[id].pc.written <= |s.writers[id].contents|
  {
  }

  lemma FileStepBringsNearer(s: State, s': State, id: WriterId)
    requires id in s.writers && (RenameStep(s, s', id) || CreateStep(s, s', id) || RemoveStep(s, s', id))
    ensures id in s'.writers && StepsLeft(s'.writers[id]) < StepsLeft(s.writers[id])
  {
  }

  lemma QuietStepBringsNearer(s: State, s': State, id: WriterId)
    requires id in s.writers
    requires CheckStep(s, s', id) || MakeDirStep(s, s', id) || TakeNameStep(s, s', id) || RecheckStep(s, s', id)
    ensures id in s'.writers && StepsLeft(s'.writers[id]) < StepsLeft(s.writers[id])
  {
    hide Counter, Following;
  }

  lemma StepBringsNearer(content: ContentOf, s: State, s': State, id: WriterId)
    requires Inv(content, s) && WriterStep(s, s', id)
    ensures id in s'.writers && StepsLeft(s'.writers[id]) < StepsLeft(s.writers[id])
  {
    assert WriterGood(content, s, s.writers[id]);
    hide Inv, StepsLeft, WriteStep, RenameStep, CreateStep, RemoveStep, CheckStep, MakeDirStep, TakeNameStep,
         RecheckStep;
    if WriteStep(s, s', id) {
      WritingBounded(content, s, s', id);
      WriteBringsNearer(s, s', id);
    } else if RenameStep(s, s', id) || CreateStep(s, s', id) || RemoveStep(s, s', id) {
      FileStepBringsNearer(s, s', id);
    } else {
      QuietStepBringsNearer(s, s', id);
    }
  }

  /** Wait-freedom: a put that has not returned always has a step, and one in which its call
      succeeds whenever its temp name is free; every step of its own brings its return nearer,
      so it returns within |contents| + 8 of them. */
  lemma PutIsWaitFree(content: ContentOf, s: State, s': State, id: WriterId)
    requires Inv(content, s) && id in s.writers
    ensures !s.writers[id].pc.Done? ==> WriterStep(s, SomeStep(s, id), id)
    ensures !s.writers[id].pc.Done? && NameFree(s, s.writers[id]) ==> WriterStep(s, GoodStep(s, id), id)
    ensures WriterStep(s, s', id) ==> id in s'.writers && StepsLeft(s'.writers[id]) < StepsLeft(s.writers[id])
    ensures s.writers[id].pc.CheckFinal? ==> StepsLeft(s.writers[id]) == |s.writers[id].contents| + 8
    ensures StepsLeft(s.writers[id]) == 0 <==> s.writers[id].pc.Done?
  {
    hide WriterStep, SomeStep, GoodStep, NameFree, Inv;
    if !s.writers[id].pc.Done? {
      StepAvailable(content, s, id);
      if NameFree(s, s.writers[id]) {
        GoodStepAvailable(content, s, id);
      }
    }
    if WriterStep(s, s', id) {
      StepBringsNearer(content, s, s', id);
    }
  }
}
