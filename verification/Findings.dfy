/**
 Where the code does not keep what its comments promise: for each case a disk or log that shows it,
 for any names, mappings and documents, and the exact condition under which the promise does hold.
 */
module Findings {
  import opened Outcome
  import opened Mappings
  import opened Documents
  import opened Commands
  import opened Stores
  import opened Standalone
  import opened RecoveryCrashes
  import R = StandaloneRuns

  // ---------------------------------------------------------------- recovery interrupted

  /** A checkpointed collection, then a document for it, then a second collection. */
  function TwoCreates(a: Name, b: Name, id: Id, src: Source, m: Mapping): Log {
    [Create(a, 1, m), Index(a, id, src), Create(b, 2, m)]
  }

  /** The disk after those three commands, with one checkpoint after the first. */
  function CheckpointedOnce(a: Name, b: Name, id: Id, src: Source, m: Mapping): Disk {
    Disk(map[1 := Dir(map[], Some(LogMark(0, 0, 1))), 2 := Dir(map[], None)],
         Snapshot(1, map[a := SnapshotEntry(1, 1, m)]),
         WalImage(map[1 := Create(a, 1, m), 2 := Index(a, id, src), 3 := Create(b, 2, m)], Some(4)))
  }

  /** The store recovery loads from that disk, and what replaying two and then three commands makes of it. */
  function LoadedOnce(a: Name, m: Mapping): Store {
    Store(map[a := Entry(1, 1, m, map[])],
          map[1 := Dir(map[], Some(LogMark(0, 0, 1))), 2 := Dir(map[], None)])
  }

  function ReplayedTwo(a: Name, id: Id, src: Source, m: Mapping): Store {
    Buffer(LoadedOnce(a, m), a, map[id := src])
  }

  function ReplayedThree(a: Name, b: Name, id: Id, src: Source, m: Mapping): Store {
    Install(ReplayedTwo(a, id, src, m), b, 2, m, 3)
  }

  lemma TwoCreatesFold(a: Name, b: Name, id: Id, src: Source, m: Mapping)
    requires a != b
    ensures var log := TwoCreates(a, b, id, src, m);
            && Fold(log, 0) == map[]
            && Fold(log, 1) == map[a := Coll(1, 1, m, map[])]
            && Fold(log, 2) == map[a := Coll(1, 1, m, map[id := src])]
            && Fold(log, 3) == map[a := Coll(1, 1, m, map[id := src]), b := Coll(2, 3, m, map[])]
  {
    var log := TwoCreates(a, b, id, src, m);
    assert Fold(log, 1) == Effect(Fold(log, 0), 1, log[0]);
    assert Fold(log, 2) == Effect(Fold(log, 1), 2, log[1]);
    assert Fold(log, 3) == Effect(Fold(log, 2), 3, log[2]);
  }

  /** That disk is one from which an uninterrupted recovery is exact. */
  lemma CheckpointedOnceOk(a: Name, b: Name, id: Id, src: Source, m: Mapping)
    requires a != b && Buildable(m, src)
    ensures DownOk(CheckpointedOnce(a, b, id, src, m), TwoCreates(a, b, id, src, m))
  {
    var log, d := TwoCreates(a, b, id, src, m), CheckpointedOnce(a, b, id, src, m);
    TwoCreatesFold(a, b, id, src, m);
    forall k | 0 <= k < 3 ensures Admitted(log, k) && CreateFresh(log, k) { }
    forall n | n in Fold(log, 3) ensures Fold(log, 3)[n].uuid in d.dirs && DirExact(d.dirs[Fold(log, 3)[n].uuid], log, n, Fold(log, 3)[n]) { }
  }

  /** A crash after the third command was replayed, whatever listing its create wrote, is a step of a run. */
  lemma InterruptedStep(a: Name, b: Name, id: Id, src: Source, m: Mapping, p: Snapshot)
    requires a != b && Buildable(m, src)
    requires PersistsTo(CheckpointedOnce(a, b, id, src, m).snapshot, ReplayedTwo(a, id, src, m), 3,
                        Create(b, 2, m), ReplayedThree(a, b, id, src, m), p)
    ensures var log, d, t := TwoCreates(a, b, id, src, m), CheckpointedOnce(a, b, id, src, m), ReplayedThree(a, b, id, src, m);
            R.Next(R.Run(R.Down(d), log), R.CrashInOpen(LoadedOnce(a, m), 3, t), R.Run(R.Down(Disk(t.dirs, p, d.wal)), log))
  {
    var log, d, s := TwoCreates(a, b, id, src, m), CheckpointedOnce(a, b, id, src, m), LoadedOnce(a, m);
    assert MarkIndex(s, a) == 1;
    assert Replay(s, log, 1, 1) == Ok(s);
    assert Replay(s, log, 1, 2) == ApplyCommand(s, 2, log[1]) == Ok(ReplayedTwo(a, id, src, m));
    assert Replay(s, log, 1, 3) == ApplyCommand(ReplayedTwo(a, id, src, m), 3, log[2]) == Ok(ReplayedThree(a, b, id, src, m));
    assert PersistedThrough(d, log, s, 1, d.snapshot);
    assert PersistedThrough(d, log, s, 2, d.snapshot);
    assert PersistedThrough(d, log, s, 3, p);
  }

  /**
   A crash inside recovery can lose an acknowledged document: replaying the second create
   persists `applied_seq` past a document that is still only buffered. Whatever catalog listing
   the create writes, the next `open` has no tail to replay and loads the first collection empty.
   */
  lemma InterruptedRecoveryLosesDocument(a: Name, b: Name, id: Id, src: Source, m: Mapping, p: Snapshot, s: Store)
    requires a != b && Buildable(m, src)
    requires PersistsTo(CheckpointedOnce(a, b, id, src, m).snapshot, ReplayedTwo(a, id, src, m), 3,
                        Create(b, 2, m), ReplayedThree(a, b, id, src, m), p)
    requires Loads(Disk(ReplayedThree(a, b, id, src, m).dirs, p, CheckpointedOnce(a, b, id, src, m).wal), s)
    ensures var log, d, t := TwoCreates(a, b, id, src, m), CheckpointedOnce(a, b, id, src, m), ReplayedThree(a, b, id, src, m);
            && DownOk(d, log)
            && R.Next(R.Run(R.Down(d), log), R.CrashInOpen(LoadedOnce(a, m), 3, t), R.Run(R.Down(Disk(t.dirs, p, d.wal)), log))
            && DocAt(log, 3, a, id) == Some(src)
            && !HasTail(Disk(t.dirs, p, d.wal)) && a in s.live && s.live[a].buffer == map[]
            && OvertakenAt(d, log, p.appliedSeq, a, id)
  {
    hide R.Next, DownOk, OvertakenAt, Loads, PersistsTo, Buildable;
    CheckpointedOnceOk(a, b, id, src, m);
    InterruptedStep(a, b, id, src, m, p);
    InterruptedLoss(a, b, id, src, m, p, s);
  }

  lemma InterruptedLoss(a: Name, b: Name, id: Id, src: Source, m: Mapping, p: Snapshot, s: Store)
    requires a != b
    requires PersistsTo(CheckpointedOnce(a, b, id, src, m).snapshot, ReplayedTwo(a, id, src, m), 3,
                        Create(b, 2, m), ReplayedThree(a, b, id, src, m), p)
    requires Loads(Disk(ReplayedThree(a, b, id, src, m).dirs, p, CheckpointedOnce(a, b, id, src, m).wal), s)
    ensures var log, d, t := TwoCreates(a, b, id, src, m), CheckpointedOnce(a, b, id, src, m), ReplayedThree(a, b, id, src, m);
            && p.appliedSeq == 3 && DocAt(log, 3, a, id) == Some(src)
            && !HasTail(Disk(t.dirs, p, d.wal)) && a in s.live && s.live[a].buffer == map[]
            && OvertakenAt(d, log, p.appliedSeq, a, id)
  {
    TwoCreatesFold(a, b, id, src, m);
    var d := Disk(ReplayedThree(a, b, id, src, m).dirs, p, CheckpointedOnce(a, b, id, src, m).wal);
    assert !DroppedInTail(d, a);
    assert p.entries[a] == IdentityOf(ReplayedThree(a, b, id, src, m).live[a]);
    assert Kept(d, a);
  }

  // ---------------------------------------------------------------- a number used up

  /** A checkpointed collection, with its directory at mark `k` and the counter at `seqNo`. */
  function OneCollection(a: Name, m: Mapping, docs: Docs, k: nat, wal: WalImage, seqNo: nat): State {
    State(Store(map[a := Entry(1, 1, m, docs)], map[1 := Dir(map[], Some(LogMark(0, 0, k)))]),
          Snapshot(1, map[a := SnapshotEntry(1, 1, m)]), wal, seqNo)
  }

  function FirstEntry(a: Name, m: Mapping): WalImage {
    WalImage(map[1 := Create(a, 1, m)], Some(2))
  }

  function SecondEntry(a: Name, m: Mapping, cmd: Command): WalImage {
    WalImage(map[1 := Create(a, 1, m), 2 := cmd], Some(3))
  }

  /**
   A command too long for a log record leaves a gap: the state is one a run can reach, and after it
   the next number is not the index the next frame will be read back under.
   */
  lemma OversizedLeavesGap(a: Name, m: Mapping, cmd: Command)
    requires Accepts(OneCollection(a, m, map[], 1, FirstEntry(a, m), 1).store, cmd) && R.FreshUuid([Create(a, 1, m)], cmd)
    ensures var log, st := [Create(a, 1, m)], OneCollection(a, m, map[], 1, FirstEntry(a, m), 1);
            && StateOk(st, log) && Contiguous(st.wal, st.seqNo + 1)
            && R.Next(R.Run(R.Up(st), log), R.Oversized(cmd), R.Run(R.Up(Skipped(st)), log + [Blank]))
            && !Contiguous(Skipped(st).wal, Skipped(st).seqNo + 1)
  {
    OneCollectionOk(a, m);
  }

  lemma OneCollectionOk(a: Name, m: Mapping)
    ensures StateOk(OneCollection(a, m, map[], 1, FirstEntry(a, m), 1), [Create(a, 1, m)])
  {
    var log, st := [Create(a, 1, m)], OneCollection(a, m, map[], 1, FirstEntry(a, m), 1);
    assert Fold(log, 0) == map[];
    assert Fold(log, 1) == map[a := Coll(1, 1, m, map[])];
    assert Admitted(log, 0) && CreateFresh(log, 0);
    forall n | n in Fold(log, 1) ensures DirExact(st.store.dirs[1], log, n, Fold(log, 1)[n]) {
    }
    assert LiveUuids(st.store.live) == {1} by {
      assert st.store.live[a].uuid == 1;
    }
  }

  /**
   A number used up can cost an acknowledged document. A checkpoint commits the collection at the
   number that was used up, and a crash before `catalog.pb` is rewritten forgets that number. It is
   given to the next document, which is logged, synced and answered; the next recovery takes it for
   committed and skips it.
   */
  lemma UsedUpNumberLosesDocument(a: Name, m: Mapping, id: Id, src: Source, big: Command)
    requires Buildable(m, src) && Accepts(OneCollection(a, m, map[], 1, FirstEntry(a, m), 1).store, big)
    requires R.FreshUuid([Create(a, 1, m)], big)
    ensures var w1, doc := FirstEntry(a, m), Index(a, id, src);
            var log1, w2 := [Create(a, 1, m)], SecondEntry(a, m, doc);
            var log2 := log1 + [doc];
            var s1, s2, s3 := OneCollection(a, m, map[], 1, w1, 1), OneCollection(a, m, map[], 1, w1, 2), OneCollection(a, m, map[], 2, w1, 2);
            var s4, s5, s6 := OneCollection(a, m, map[], 2, w1, 1), OneCollection(a, m, map[id := src], 2, w2, 2), OneCollection(a, m, map[], 2, w2, 2);
            && StateOk(s1, log1)
            && R.Next(R.Run(R.Up(s1), log1), R.Oversized(big), R.Run(R.Up(s2), log1 + [Blank]))
            && R.Next(R.Run(R.Up(s2), log1 + [Blank]), R.Commit(a), R.Run(R.Up(s3), log1 + [Blank]))
            && R.Next(R.Run(R.Up(s3), log1 + [Blank]), R.Crash, R.Run(R.Down(DiskOf(s3)), log1))
            && !Safe(DiskOf(s3), log1)
            && R.Next(R.Run(R.Down(DiskOf(s3)), log1), R.Open(s4), R.Run(R.Up(s4), log1))
            && R.Next(R.Run(R.Up(s4), log1), R.Write(doc, false), R.Run(R.Up(s5), log2))
            && R.Next(R.Run(R.Up(s5), log2), R.Crash, R.Run(R.Down(DiskOf(s5)), log2))
            && DocAt(log2, 2, a, id) == Some(src)
            && Loads(DiskOf(s5), s6.store) && Replay(s6.store, WalLog(w2, 2), 1, 2) == Ok(s6.store) && s6.store.live[a].buffer == map[]
  {
    hide R.Next, StateOk, Loads, Safe, Fold, Replay;
    UsedUpRun(a, m, big);
    UsedUpWrite(a, m, id, src);
    UsedUpOpen(a, m);
    UsedUpLoss(a, m, id, src);
    OneCollectionOk(a, m);
  }

  /** The number is used up, the collection is committed at it, and the crash forgets it. */
  lemma UsedUpRun(a: Name, m: Mapping, big: Command)
    requires Accepts(OneCollection(a, m, map[], 1, FirstEntry(a, m), 1).store, big) && R.FreshUuid([Create(a, 1, m)], big)
    ensures var w1, log1 := FirstEntry(a, m), [Create(a, 1, m)];
            var s1, s2, s3 := OneCollection(a, m, map[], 1, w1, 1), OneCollection(a, m, map[], 1, w1, 2), OneCollection(a, m, map[], 2, w1, 2);
            && R.Next(R.Run(R.Up(s1), log1), R.Oversized(big), R.Run(R.Up(s2), log1 + [Blank]))
            && R.Next(R.Run(R.Up(s2), log1 + [Blank]), R.Commit(a), R.Run(R.Up(s3), log1 + [Blank]))
            && R.Next(R.Run(R.Up(s3), log1 + [Blank]), R.Crash, R.Run(R.Down(DiskOf(s3)), log1))
            && !Safe(DiskOf(s3), log1)
  {
    var w1 := FirstEntry(a, m);
    var s2, s3 := OneCollection(a, m, map[], 1, w1, 2), OneCollection(a, m, map[], 2, w1, 2);
    assert Fold([Create(a, 1, m)], 0) == map[];
    assert Fold([Create(a, 1, m)], 1) == map[a := Coll(1, 1, m, map[])];
    assert a in Fold([Create(a, 1, m)], 1) && MarkOf(s3.store.dirs[1]).index == 2;
    assert R.Committed(s2, a) == s3;
    assert IsHighest(DiskOf(s3), 1);
  }

  /** The number is given to a document, and the catalog crashes again. */
  lemma UsedUpWrite(a: Name, m: Mapping, id: Id, src: Source)
    requires Buildable(m, src)
    ensures var w1, doc := FirstEntry(a, m), Index(a, id, src);
            var log1, w2 := [Create(a, 1, m)], SecondEntry(a, m, doc);
            var log2, s4, s5 := log1 + [doc], OneCollection(a, m, map[], 2, w1, 1), OneCollection(a, m, map[id := src], 2, w2, 2);
            && R.Next(R.Run(R.Up(s4), log1), R.Write(doc, false), R.Run(R.Up(s5), log2))
            && R.Next(R.Run(R.Up(s5), log2), R.Crash, R.Run(R.Down(DiskOf(s5)), log2))
  {
    hide Fold, Safe;
    var w1, doc := FirstEntry(a, m), Index(a, id, src);
    var s4, s5 := OneCollection(a, m, map[], 2, w1, 1), OneCollection(a, m, map[id := src], 2, SecondEntry(a, m, doc), 2);
    assert IsHighest(DiskOf(s5), 2);
    assert w1.entries[2 := doc] == SecondEntry(a, m, doc).entries;
    var none: Docs := map[];
    assert none[id := src] == map[id := src];
    assert Written(s4, doc, false) == s5;
  }

  /** With the applied point at the only entry there is nothing to replay. */
  lemma UsedUpOpen(a: Name, m: Mapping)
    ensures var w1, log1 := FirstEntry(a, m), [Create(a, 1, m)];
            var s3, s4 := OneCollection(a, m, map[], 2, w1, 2), OneCollection(a, m, map[], 2, w1, 1);
            R.Next(R.Run(R.Down(DiskOf(s3)), log1), R.Open(s4), R.Run(R.Up(s4), log1))
  {
    var w1 := FirstEntry(a, m);
    var s3, s4 := OneCollection(a, m, map[], 2, w1, 2), OneCollection(a, m, map[], 2, w1, 1);
    var d := DiskOf(s3);
    assert Kept(d, a) && !HasTail(d);
    assert Replay(s4.store, WalLog(d.wal, 1), 1, 1) == Ok(s4.store);
    assert LiveUuids(s4.store.live) == {1} by {
      assert s4.store.live[a].uuid == 1;
    }
    assert Opens(d, s4.store, 1, s4);
  }

  lemma UsedUpLoss(a: Name, m: Mapping, id: Id, src: Source)
    ensures var doc := Index(a, id, src);
            var w2, log2 := SecondEntry(a, m, doc), [Create(a, 1, m)] + [doc];
            var s5, s6 := OneCollection(a, m, map[id := src], 2, w2, 2), OneCollection(a, m, map[], 2, w2, 2);
            && DocAt(log2, 2, a, id) == Some(src)
            && Loads(DiskOf(s5), s6.store) && Replay(s6.store, WalLog(w2, 2), 1, 2) == Ok(s6.store) && s6.store.live[a].buffer == map[]
  {
    var doc := Index(a, id, src);
    var w2, log2 := SecondEntry(a, m, doc), [Create(a, 1, m)] + [doc];
    var s5, s6 := OneCollection(a, m, map[id := src], 2, w2, 2), OneCollection(a, m, map[], 2, w2, 2);
    assert Fold(log2, 0) == map[];
    assert Fold(log2, 1) == map[a := Coll(1, 1, m, map[])];
    assert Fold(log2, 2) == map[a := Coll(1, 1, m, map[id := src])];
    assert Kept(DiskOf(s5), a);
    var log := WalLog(w2, 2);
    assert Replay(s6.store, log, 1, 1) == Ok(s6.store);
    assert MarkIndex(s6.store, a) == 2;
    assert Replay(s6.store, log, 1, 2) == ApplyCommand(s6.store, 2, log[1]);
  }

  // ---------------------------------------------------------------- a file below the end of the last one

  function EmptyCatalog(wal: WalImage, seqNo: nat): State {
    State(Store(map[], map[]), EMPTY_SNAPSHOT, wal, seqNo)
  }

  /** The collection, never committed, with these documents buffered. */
  function Uncommitted(a: Name, m: Mapping, docs: Docs, wal: WalImage, seqNo: nat): State {
    State(Store(map[a := Entry(1, 1, m, docs)], map[1 := Dir(map[], None)]), EMPTY_SNAPSHOT, wal, seqNo)
  }

  function ThreeCommands(a: Name, m: Mapping, id: Id, id': Id, src: Source): Log {
    [Create(a, 1, m), Index(a, id, src), Index(a, id', src)]
  }

  /** What a reopen finds: the record of the second command has been displaced. */
  function Displaced(a: Name, m: Mapping, id': Id, src: Source): WalImage {
    WalImage(map[1 := Create(a, 1, m), 3 := Index(a, id', src)], Some(4))
  }

  /**
   The run: a command too long to log uses up number 1; the rotation for number 2 is torn after its
   file was made; numbers 1 and 2 are given again and their records go into that file; the rotation
   at number 3 begins a file below its end.
   */
  function ShadowRun(a: Name, m: Mapping, id: Id, id': Id, src: Source): seq<R.Run> {
    var log := ThreeCommands(a, m, id, id', src);
    var w1 := WalImage(map[1 := log[0]], Some(3));
    var w2 := WalImage(map[1 := log[0], 2 := log[1]], Some(4));
    var last := Uncommitted(a, m, map[id := src, id' := src], Displaced(a, m, id', src), 3);
    [R.INITIAL_RUN,
     R.Run(R.Up(EmptyCatalog(EMPTY_WAL, 0)), []),
     R.Run(R.Up(EmptyCatalog(EMPTY_WAL, 1)), [Blank]),
     R.Run(R.Down(DiskOf(EmptyCatalog(WalImage(map[], Some(2)), 1))), []),
     R.Run(R.Up(EmptyCatalog(WalImage(map[], Some(2)), 0)), []),
     R.Run(R.Up(Uncommitted(a, m, map[], w1, 1)), log[..1]),
     R.Run(R.Up(Uncommitted(a, m, map[id := src], w2, 2)), log[..2]),
     R.Run(R.Up(last), log),
     R.Run(R.Down(DiskOf(last)), log)]
  }

  function ShadowSteps(a: Name, m: Mapping, id: Id, id': Id, src: Source): seq<R.Step> {
    var log := ThreeCommands(a, m, id, id', src);
    [R.Open(EmptyCatalog(EMPTY_WAL, 0)), R.Oversized(log[0]), R.TornAppend(log[0], true), R.Open(EmptyCatalog(WalImage(map[], Some(2)), 0)),
     R.Write(log[0], false), R.Write(log[1], false), R.Write(log[2], true), R.Crash]
  }

  /**
   A rotation below the end of the last file can cost an acknowledged command, here the document of the
   second one. The records are those of `LogRecovery.NewFileShadows`.
   */
  lemma RotationLosesCommand(a: Name, m: Mapping, id: Id, id': Id, src: Source)
    requires Buildable(m, src) && id != id'
    ensures var runs, steps, log := ShadowRun(a, m, id, id', src), ShadowSteps(a, m, id, id', src), ThreeCommands(a, m, id, id', src);
            && R.IsRun(runs, steps) && R.AllGentle(runs, steps) && !R.Clear(runs[6], steps[6])
            && runs[8].log == log && DocAt(log, 3, a, id) == Some(src)
            && 0 == runs[8].phase.disk.snapshot.appliedSeq < 2 && 2 !in runs[8].phase.disk.wal.entries
    ensures var d := DiskOf(Uncommitted(a, m, map[id := src, id' := src], Displaced(a, m, id', src), 3));
            forall s, st :: Opens(d, s, 3, st) ==> a in st.store.live && id !in st.store.live[a].buffer
  {
    ShadowStart(a, m, id, id', src);
    ShadowWrites(a, m, id, id', src);
    ShadowOpen(a, m, id, id', src);
    hide R.Next, R.Gentle, R.Clear;
    var runs, steps := ShadowRun(a, m, id, id', src), ShadowSteps(a, m, id, id', src);
    forall t | 0 <= t < 8 ensures R.Next(runs[t], steps[t], runs[t + 1]) && R.Gentle(steps[t], runs[t + 1]) {
    }
  }

  lemma ShadowStart(a: Name, m: Mapping, id: Id, id': Id, src: Source)
    ensures var runs, steps := ShadowRun(a, m, id, id', src), ShadowSteps(a, m, id, id', src);
            forall t :: 0 <= t < 4 ==> R.Next(runs[t], steps[t], runs[t + 1]) && R.Gentle(steps[t], runs[t + 1])
  {
    hide R.Next, R.Gentle;
    EmptyStep(EMPTY_WAL, []);
    EmptyStep(WalImage(map[], Some(2)), []);
    ShadowTorn(a, m);
  }

  lemma EmptyStep(w: WalImage, log: Log)
    requires w.entries == map[]
    ensures var d, st := DiskOf(EmptyCatalog(w, 0)), EmptyCatalog(w, 0);
            R.Next(R.Run(R.Down(d), log), R.Open(st), R.Run(R.Up(st), log)) && R.Gentle(R.Open(st), R.Run(R.Up(st), log))
  {
    EmptyOpens(w);
    hide Opens;
  }

  lemma ShadowTorn(a: Name, m: Mapping)
    ensures var cmd, up, skipped, d := Create(a, 1, m), EmptyCatalog(EMPTY_WAL, 0), EmptyCatalog(EMPTY_WAL, 1), DiskOf(EmptyCatalog(WalImage(map[], Some(2)), 1));
            && R.Next(R.Run(R.Up(up), []), R.Oversized(cmd), R.Run(R.Up(skipped), [Blank])) && R.Gentle(R.Oversized(cmd), R.Run(R.Up(skipped), [Blank]))
            && R.Next(R.Run(R.Up(skipped), [Blank]), R.TornAppend(cmd, true), R.Run(R.Down(d), [])) && R.Gentle(R.TornAppend(cmd, true), R.Run(R.Down(d), []))
  {
    var d := DiskOf(EmptyCatalog(WalImage(map[], Some(2)), 1));
    assert IsHighest(d, 0) && MarksWithin(d, []);
  }

  lemma EmptyOpens(w: WalImage)
    requires w.entries == map[]
    ensures Opens(DiskOf(EmptyCatalog(w, 0)), Store(map[], map[]), 0, EmptyCatalog(w, 0))
  {
    var d, s := DiskOf(EmptyCatalog(w, 0)), Store(map[], map[]);
    assert Replay(s, WalLog(w, 0), 0, 0) == Ok(s);
    assert LiveUuids(s.live) == {};
  }

  lemma ShadowWrites(a: Name, m: Mapping, id: Id, id': Id, src: Source)
    requires Buildable(m, src) && id != id'
    ensures var runs, steps, log := ShadowRun(a, m, id, id', src), ShadowSteps(a, m, id, id', src), ThreeCommands(a, m, id, id', src);
            && (forall t :: 4 <= t < 8 ==> R.Next(runs[t], steps[t], runs[t + 1]) && R.Gentle(steps[t], runs[t + 1]))
            && !R.Clear(runs[6], steps[6]) && DocAt(log, 3, a, id) == Some(src)
  {
    hide R.Next, R.Gentle, Fold, Buildable;
    var log := ThreeCommands(a, m, id, id', src);
    ShadowLog(a, m, id, id', src);
    ShadowDocs(a, m, id, id', src);
    ShadowCreate(a, m, WalImage(map[1 := log[0]], Some(3)));
    assert log[..1] == [log[0]];
    ShadowCrash(a, m, map[id := src, id' := src], id', src, log);
  }

  /** The two documents are written, the second into a file of its own. */
  lemma ShadowDocs(a: Name, m: Mapping, id: Id, id': Id, src: Source)
    requires Buildable(m, src) && id != id'
    ensures var runs, steps := ShadowRun(a, m, id, id', src), ShadowSteps(a, m, id, id', src);
            && (forall t :: 5 <= t < 7 ==> R.Next(runs[t], steps[t], runs[t + 1]) && R.Gentle(steps[t], runs[t + 1]))
            && !R.Clear(runs[6], steps[6])
  {
    hide R.Next, R.Gentle, Fold, Buildable;
    var log := ThreeCommands(a, m, id, id', src);
    var w1, w2 := WalImage(map[1 := log[0]], Some(3)), WalImage(map[1 := log[0], 2 := log[1]], Some(4));
    assert log[..1] + [log[1]] == log[..2] && log[..2] + [log[2]] == log;
    var none: Docs := map[];
    assert none[id := src] == map[id := src] && map[id := src][id' := src] == map[id := src, id' := src];
    assert w1.entries[2 := log[1]] == w2.entries;
    DocStep(a, m, map[], w1, 1, id, src, false, w2, log[..1]);
    DocStep(a, m, map[id := src], w2, 2, id', src, true, Displaced(a, m, id', src), log[..2]);
  }

  lemma ShadowCreate(a: Name, m: Mapping, w: WalImage)
    requires w == WalImage(map[1 := Create(a, 1, m)], Some(3))
    ensures var before, after := R.Run(R.Up(EmptyCatalog(WalImage(map[], Some(2)), 0)), []), R.Run(R.Up(Uncommitted(a, m, map[], w, 1)), [Create(a, 1, m)]);
            R.Next(before, R.Write(Create(a, 1, m), false), after) && R.Gentle(R.Write(Create(a, 1, m), false), after)
  {
  }

  lemma DocStep(a: Name, m: Mapping, docs: Docs, w: WalImage, k: nat, id: Id, src: Source, rotates: bool, w': WalImage, log: Log)
    requires Buildable(m, src) && Appends(w, k + 1, Index(a, id, src), rotates, w')
    ensures var before, after := R.Run(R.Up(Uncommitted(a, m, docs, w, k)), log), R.Run(R.Up(Uncommitted(a, m, docs[id := src], w', k + 1)), log + [Index(a, id, src)]);
            R.Next(before, R.Write(Index(a, id, src), rotates), after) && R.Gentle(R.Write(Index(a, id, src), rotates), after)
  {
    var st, cmd := Uncommitted(a, m, docs, w, k), Index(a, id, src);
    var st' := Uncommitted(a, m, docs[id := src], w', k + 1);
    assert Execute(st.store, k + 1, cmd).live == st'.store.live;
    assert Written(st, cmd, rotates).(wal := w') == st';
  }

  lemma ShadowCrash(a: Name, m: Mapping, docs: Docs, id': Id, src: Source, log: Log)
    requires |log| == 3
    ensures var st := Uncommitted(a, m, docs, Displaced(a, m, id', src), 3);
            R.Next(R.Run(R.Up(st), log), R.Crash, R.Run(R.Down(DiskOf(st)), log)) && R.Gentle(R.Crash, R.Run(R.Down(DiskOf(st)), log))
  {
    var d := DiskOf(Uncommitted(a, m, docs, Displaced(a, m, id', src), 3));
    assert 3 in d.wal.entries && HasTail(d) && IsHighest(d, 3);
  }

  lemma ShadowLog(a: Name, m: Mapping, id: Id, id': Id, src: Source)
    requires id != id'
    ensures DocAt(ThreeCommands(a, m, id, id', src), 3, a, id) == Some(src)
  {
    var log := ThreeCommands(a, m, id, id', src);
    assert Fold(log, 0) == map[];
    assert Fold(log, 1) == map[a := Coll(1, 1, m, map[])];
    assert Fold(log, 2) == map[a := Coll(1, 1, m, map[id := src])];
  }

  lemma ShadowOpen(a: Name, m: Mapping, id: Id, id': Id, src: Source)
    requires Buildable(m, src) && id != id'
    ensures var d := DiskOf(Uncommitted(a, m, map[id := src, id' := src], Displaced(a, m, id', src), 3));
            forall s, st :: Opens(d, s, 3, st) ==> a in st.store.live && id !in st.store.live[a].buffer
  {
    var d := DiskOf(Uncommitted(a, m, map[id := src, id' := src], Displaced(a, m, id', src), 3));
    forall s, st | Opens(d, s, 3, st) ensures a in st.store.live && id !in st.store.live[a].buffer {
      forall n ensures n !in s.live {
        assert !Kept(d, n);
      }
      var log := WalLog(d.wal, 3);
      var s1 := Install(s, a, 1, m, 1);
      assert Replay(s, log, 0, 0) == Ok(s);
      assert Replay(s, log, 0, 1) == ApplyCommand(s, 1, log[0]) == Ok(s1);
      assert Replay(s, log, 0, 2) == ApplyCommand(s1, 2, log[1]) == Ok(s1);
      assert Replay(s, log, 0, 3) == ApplyCommand(s1, 3, log[2]);
    }
  }
}
