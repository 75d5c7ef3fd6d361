/**
 Crashes that lose something later: those that forget numbers, because a command that was too long to
 be logged used them up and the disk does not mention them, and those that interrupt a recovery.
 Exactly which of all crashes every further run recovers from.
 */
module CrashOutcomes {
  import opened Outcome
  import opened Documents
  import opened Commands
  import opened Stores
  import opened Standalone
  import opened StandaloneRecovery
  import opened RecoveryCrashes
  import opened StandaloneRuns

  ghost predicate AllShow(runs: seq<Run>) {
    forall t :: 0 <= t < |runs| && runs[t].phase.Up? ==> Shows(runs[t].phase.st.store.live, Fold(runs[t].log, |runs[t].log|))
  }

  /** However the catalog goes on from this disk, it shows its durable commands whenever it is up. */
  ghost predicate Recovers(d: Disk, log: Log) {
    forall runs, steps {:trigger Follows(runs, steps)} ::
      Follows(runs, steps) && runs[0] == Run(Down(d), log) && AllGentle(runs, steps) && AllClear(runs, steps) ==> AllShow(runs)
  }

  /** The empty object, which every mapping accepts. */
  const EMPTY_SOURCE := Source("{}", Some(JObject(map[])))

  /** Whatever crash ends a run that recovered so far, it leaves a disk that can be opened again. */
  lemma CrashRestartable(a: Run, step: Step, b: Run)
    requires RunOk(a) && Next(a, step, b) && Clear(a, step) && b.phase.Down?
    ensures Restartable(b.phase.disk, b.log) && (Gentle(step, b) <==> Harmless(b.phase.disk, b.log))
  {
    hide FallenOk, Safe, StateOk, Opens, NoneOvertaken, CrashesInOpen, SoundDisk;
    var d := b.phase.disk;
    match step
    case CrashInOpen(s, j, t) => CrashInOpenKeeps(a.phase.disk, a.log, s, j, t, d);
    case LogThenCrash(cmd, rotates) =>
      LoggedSafe(a.phase.st, a.log, cmd, rotates);
      FallenHarmless(d, b.log);
    case TornAppend(cmd, rotates) =>
      FallOk(a.phase.st, a.log, d, b);
      FallenHarmless(d, b.log);
    case Crash =>
      FallOk(a.phase.st, a.log, d, b);
      FallenHarmless(d, b.log);
  }

  /**
   Every crash, exactly: every further run recovers if and only if the applied point has overtaken no
   document, and no live collection was committed at a forgotten number or there is a tail to replay.
   */
  lemma RecoversIff(d: Disk, log: Log)
    requires Restartable(d, log)
    ensures Recovers(d, log) <==> Harmless(d, log)
  {
    hide Restartable, NoneOvertaken, Safe, Next, Shows, Fold, FallenOk, Opens;
    FallenIff(d, log);
    if Harmless(d, log) {
      forall runs: seq<Run>, steps: seq<Step> | Follows(runs, steps) && runs[0] == Run(Down(d), log) && AllGentle(runs, steps) && AllClear(runs, steps)
        ensures AllShow(runs)
      {
        RecoveringRun(d, log, runs, steps);
      }
    } else {
      var runs, steps := LosingRun(d, log);
      assert Follows(runs, steps);
    }
  }

  lemma RecoveringRun(d: Disk, log: Log, runs: seq<Run>, steps: seq<Step>)
    requires FallenOk(d, log) && Safe(d, log)
    requires Follows(runs, steps) && runs[0] == Run(Down(d), log) && AllGentle(runs, steps) && AllClear(runs, steps)
    ensures AllShow(runs)
  {
    forall t | 0 <= t < |runs| && runs[t].phase.Up? ensures Shows(runs[t].phase.st.store.live, Fold(runs[t].log, |runs[t].log|)) {
      RunsOk(runs, steps, t);
    }
  }

  /** If it has overtaken a document the next `open` shows it; if not, a number forgotten costs one later. */
  lemma LosingRun(d: Disk, log: Log) returns (runs: seq<Run>, steps: seq<Step>)
    requires Restartable(d, log) && !Harmless(d, log)
    ensures Follows(runs, steps) && runs[0] == Run(Down(d), log) && AllGentle(runs, steps) && AllClear(runs, steps) && !AllShow(runs)
  {
    hide Restartable, NoneOvertaken, Safe, Next, Shows, Fold, FallenOk, Opens, Gentle;
    FallenIff(d, log);
    if NoneOvertaken(d, log) {
      runs, steps := ForgetfulRun(d, log);
    } else {
      RestartableOpens(d, log);
      var s, st :| Opens(d, s, |log|, st);
      OpenStep(d, log, s, |log|, st);
      runs, steps := [Run(Down(d), log), Run(Up(st), log)], [Open(st)];
      assert !Shows(runs[1].phase.st.store.live, Fold(runs[1].log, |runs[1].log|));
    }
  }

  /** Some id has no document in the collection. */
  lemma {:induction false} FreshId(ids: set<Id>) returns (unused: Id)
    ensures forall id :: id in ids ==> id < unused
    decreases ids
  {
    unused := 0;
    if ids != {} {
      var id := Any(ids);
      var rest := FreshId(ids - {id});
      unused := if rest <= id then id + 1 else rest;
      assert forall x :: x in ids ==> x == id || x in ids - {id};
    }
  }

  /**
   Open, write a document, crash, open: the document was given a number the collection is already
   committed at, so the second recovery skips it.
   */
  lemma ForgetfulRun(d: Disk, log: Log) returns (runs: seq<Run>, steps: seq<Step>)
    requires FallenOk(d, log) && !Safe(d, log)
    ensures Follows(runs, steps) && runs[0] == Run(Down(d), log) && AllGentle(runs, steps) && AllClear(runs, steps) && !AllShow(runs)
  {
    hide Fold, FallenOk, Safe, Shows, Next, Gentle, Written;
    var n, id, st, st3 := ForgetfulStates(d, log);
    var cmd := Index(n, id, EMPTY_SOURCE);
    var st2 := Written(st, cmd, false);
    runs := [Run(Down(d), log), Run(Up(st), log), Run(Up(st2), log + [cmd]), Run(Down(DiskOf(st2)), log + [cmd]), Run(Up(st3), log + [cmd])];
    steps := [Open(st), Write(cmd, false), Crash, Open(st3)];
    assert Follows(runs, steps);
    assert AllGentle(runs, steps) by {
      assert Gentle(Open(st), runs[1]) && Gentle(steps[1], runs[2]) && Gentle(steps[2], runs[3]) && Gentle(steps[3], runs[4]);
    }
    assert !Shows(runs[4].phase.st.store.live, Fold(runs[4].log, |runs[4].log|));
  }

  lemma ForgetfulStates(d: Disk, log: Log) returns (n: Name, id: Id, st: State, st3: State)
    requires FallenOk(d, log) && !Safe(d, log)
    ensures var cmd := Index(n, id, EMPTY_SOURCE);
            var st2, log2 := Written(st, cmd, false), log + [cmd];
            && Next(Run(Down(d), log), Open(st), Run(Up(st), log)) && Gentle(Open(st), Run(Up(st), log))
            && Next(Run(Up(st), log), Write(cmd, false), Run(Up(st2), log2)) && Gentle(Write(cmd, false), Run(Up(st2), log2))
            && Next(Run(Up(st2), log2), Crash, Run(Down(DiskOf(st2)), log2)) && Gentle(Crash, Run(Down(DiskOf(st2)), log2))
            && Next(Run(Down(DiskOf(st2)), log2), Open(st3), Run(Up(st3), log2)) && Gentle(Open(st3), Run(Up(st3), log2))
            && !Shows(st3.store.live, Fold(log2, |log2|))
  {
    hide Fold, Opens, FallenOk, Shows, Written, Safe, Next, Gentle, MarksWithin, IsHighest, Sweeps;
    var s, s2;
    n, id, s, st := Uncommitted(d, log);
    s2, st3 := SkippedWrite(d, log, s, st, n, id);
    OpenStep(d, log, s, |log|, st);
    OpenStep(DiskOf(Written(st, Index(n, id, EMPTY_SOURCE), false)), log + [Index(n, id, EMPTY_SOURCE)], s2, |log| + 1, st3);
    QuietOpen(d, log, s, st);
    WriteThenCrash(d, log, st, n, id);
    LostWrite(log, n, id, st3.store);
  }

  lemma OpenStep(d: Disk, log: Log, s: Store, top: nat, st: State)
    requires Opens(d, s, top, st)
    ensures Next(Run(Down(d), log), Open(st), Run(Up(st), log)) && Gentle(Open(st), Run(Up(st), log))
  {
    hide Opens;
  }

  /** A live collection committed above the log, and an id it has no document for. */
  lemma Uncommitted(d: Disk, log: Log) returns (n: Name, id: Id, s: Store, st: State)
    requires FallenOk(d, log) && !Safe(d, log)
    ensures IsHighest(d, |log|) && !HasTail(d) && Opens(d, s, |log|, st)
    ensures n in Fold(log, |log|) && n in s.live && s.live[n].uuid in d.dirs && MarkOf(d.dirs[s.live[n].uuid]).index > |log| && id !in s.live[n].buffer
  {
    n :| n in Fold(log, |log|) && Fold(log, |log|)[n].uuid in d.dirs && MarkOf(d.dirs[Fold(log, |log|)[n].uuid]).index > |log|;
    hide Fold, Opens;
    FallenOpens(d, log);
    s, st :| Opens(d, s, |log|, st);
    QuietOpen(d, log, s, st);
    assert CollOf(st.store.live[n]) == Fold(log, |log|)[n];
    id := FreshId(st.store.live[n].buffer.Keys);
  }

  lemma WriteThenCrash(d: Disk, log: Log, st: State, n: Name, id: Id)
    requires IsHighest(d, |log|) && d.snapshot.appliedSeq == |log| == st.seqNo && st.snapshot == d.snapshot && st.wal == d.wal && n in st.store.live
    ensures var cmd := Index(n, id, EMPTY_SOURCE);
            var st2, log2 := Written(st, cmd, false), log + [cmd];
            && Next(Run(Up(st), log), Write(cmd, false), Run(Up(st2), log2))
            && Next(Run(Up(st2), log2), Crash, Run(Down(DiskOf(st2)), log2))
            && Gentle(Write(cmd, false), Run(Up(st2), log2)) && Gentle(Crash, Run(Down(DiskOf(st2)), log2))
  {
    var cmd := Index(n, id, EMPTY_SOURCE);
    var st2 := Written(st, cmd, false);
    assert |log| + 1 in st2.wal.entries && DiskOf(st2).wal == st2.wal;
    assert HasTail(DiskOf(st2));
    assert st2.(wal := st2.wal) == st2;
  }

  lemma LostWrite(log: Log, n: Name, id: Id, t: Store)
    requires n in Fold(log, |log|) && n in t.live && id !in t.live[n].buffer
    ensures var log2 := log + [Index(n, id, EMPTY_SOURCE)]; !Shows(t.live, Fold(log2, |log2|))
  {
    var cmd := Index(n, id, EMPTY_SOURCE);
    var log2 := log + [cmd];
    FoldPrefix(log, cmd, |log|);
    assert n in Fold(log2, |log2|) && Fold(log2, |log2|)[n].docs[id] == EMPTY_SOURCE;
    assert CollOf(t.live[n]).docs == t.live[n].buffer;
  }

  /** With nothing to replay, `open` loads and sweeps. */
  lemma QuietOpen(d: Disk, log: Log, s: Store, st: State)
    requires FallenOk(d, log) && !HasTail(d) && Opens(d, s, |log|, st)
    ensures d.snapshot.appliedSeq == |log| == st.seqNo && st.store.live == s.live && st.snapshot == d.snapshot && st.wal == d.wal
    ensures Shows(st.store.live, Fold(log, |log|)) && Sweeps(s, st.store)
    ensures forall n :: n in s.live ==> s.live[n].uuid in d.dirs && s.live[n].buffer == d.dirs[s.live[n].uuid].docs
  {
    FallenOpens(d, log);
    assert d.snapshot.appliedSeq == |log|;
    assert Replay(s, WalLog(d.wal, |log|), |log|, |log|) == Ok(s);
  }

  /** The recovery after the write: the one entry above the applied point is taken for committed. */
  lemma SkippedWrite(d: Disk, log: Log, s: Store, st: State, n: Name, id: Id) returns (s2: Store, st3: State)
    requires FallenOk(d, log) && !HasTail(d) && Opens(d, s, |log|, st)
    requires n in s.live && s.live[n].uuid in d.dirs && MarkOf(d.dirs[s.live[n].uuid]).index > |log| && id !in s.live[n].buffer
    ensures Opens(DiskOf(Written(st, Index(n, id, EMPTY_SOURCE), false)), s2, |log| + 1, st3)
    ensures n in st3.store.live && id !in st3.store.live[n].buffer
  {
    hide FallenOk, Opens, Loads, Sweeps, Shows, HasTail, IsTop, Written;
    var k := |log| + 1;
    var d2 := DiskOf(Written(st, Index(n, id, EMPTY_SOURCE), false));
    s2 := Store(s.live, st.store.dirs);
    QuietLoads(d, log, s, st, n, id);
    QuietDisk(d, log, s, st, n, id);
    SkipReplay(s2, d2.wal, k, n, id);
    st3 := FinishPossible(d2, k, s2);
    FinishedLive(d2, k, s2, st3);
    OpensBy(d2, s2, k, s2, st3);
  }

  lemma QuietDisk(d: Disk, log: Log, s: Store, st: State, n: Name, id: Id)
    requires FallenOk(d, log) && !HasTail(d) && Opens(d, s, |log|, st)
    requires n in s.live && s.live[n].uuid in d.dirs && MarkOf(d.dirs[s.live[n].uuid]).index > |log|
    ensures var k, cmd, s2 := |log| + 1, Index(n, id, EMPTY_SOURCE), Store(s.live, st.store.dirs);
            var d2 := DiskOf(Written(st, cmd, false));
            && d2.snapshot.appliedSeq == |log| && k in d2.wal.entries && d2.wal.entries[k] == cmd
            && IsTop(d2, s2, k) && k <= MarkIndex(s2, n)
    ensures forall n, n' :: n in s.live && n' in s.live && n != n' ==> s.live[n].uuid != s.live[n'].uuid
  {
    hide Shows, CollOf;
    QuietOpen(d, log, s, st);
    assert Loads(d, s);
    QuietDistinct(d, log, s);
    hide Opens, Loads;
    assert s.live[n].uuid in LiveUuids(s.live) && st.store.dirs[s.live[n].uuid] == d.dirs[s.live[n].uuid];
    QuietTop(DiskOf(Written(st, Index(n, id, EMPTY_SOURCE), false)), Store(s.live, st.store.dirs), |log| + 1);
  }

  lemma OpensBy(d: Disk, s: Store, top: nat, t: Store, st: State)
    requires Loads(d, s) && IsTop(d, s, top) && Replay(s, WalLog(d.wal, top), d.snapshot.appliedSeq, top) == Ok(t) && Finishes(d, top, t, st)
    ensures Opens(d, s, top, st)
  {
  }

  lemma QuietTop(d: Disk, s: Store, k: nat)
    requires d.snapshot.appliedSeq < k && k in d.wal.entries && (forall i :: i in d.wal.entries ==> i <= k) && CreatedBy(s, k)
    ensures IsTop(d, s, k)
  {
  }

  lemma SkipReplay(s: Store, w: WalImage, k: nat, n: Name, id: Id)
    requires 0 < k && k in w.entries && w.entries[k] == Index(n, id, EMPTY_SOURCE) && n in s.live && k <= MarkIndex(s, n)
    ensures Replay(s, WalLog(w, k), k - 1, k) == Ok(s)
  {
    var log := WalLog(w, k);
    assert Replay(s, log, k - 1, k - 1) == Ok(s);
    assert log[k - 1] == Index(n, id, EMPTY_SOURCE);
  }

  lemma QuietDistinct(d: Disk, log: Log, s: Store)
    requires FallenOk(d, log) && !HasTail(d) && Loads(d, s)
    ensures CreatedBy(s, |log|) && forall n, n' :: n in s.live && n' in s.live && n != n' ==> s.live[n].uuid != s.live[n'].uuid
  {
    var full :| log <= full && DiskOk(d, full);
    FallenReplay(d, log, full, s);
    ShorterLog(log, full);
    assert Replay(s, WalLog(d.wal, |log|), |log|, |log|) == Ok(s);
    OwnedDistinct(s, log);
  }

  /** The same collections are loaded again. */
  lemma QuietLoads(d: Disk, log: Log, s: Store, st: State, n: Name, id: Id)
    requires FallenOk(d, log) && !HasTail(d) && Opens(d, s, |log|, st)
    ensures var d2 := DiskOf(Written(st, Index(n, id, EMPTY_SOURCE), false));
            Loads(d2, Store(s.live, st.store.dirs)) && d2.dirs == st.store.dirs
  {
    QuietOpen(d, log, s, st);
    var d2 := DiskOf(Written(st, Index(n, id, EMPTY_SOURCE), false));
    assert d2.dirs == st.store.dirs;
    forall m ensures Kept(d2, m) <==> Kept(d, m) {
    }
    forall m | m in s.live
      ensures d2.snapshot.entries[m].uuid in d2.dirs && s.live[m] == OpenEntry(d2.snapshot.entries[m], d2.dirs)
    {
      assert s.live[m].uuid in LiveUuids(s.live);
    }
  }
}
