/**
 Whole runs of the single-node catalog: writes, checkpoints step by step, crashes anywhere between
 those steps and anywhere inside a recovery, and recoveries.
 */
module StandaloneRuns {
  import opened Outcome
  import opened Commands
  import opened Stores
  import opened Replays
  import opened Standalone
  import opened StandaloneRecovery
  import opened RecoveryCrashes

  /** The catalog is running, or it crashed and only its disk is left. */
  datatype Phase = Up(st: State) | Down(disk: Disk)

  /** `log` lists every command whose log entry became durable, by number; a number that was used up is blank. */
  datatype Run = Run(phase: Phase, log: Log)

  const INITIAL_RUN := Run(Down(Disk(map[], EMPTY_SNAPSHOT, EMPTY_WAL)), [])

  /** `rotates` says whether a log append begins a new segment file. */
  datatype Step =
    | Write(cmd: Command, rotates: bool)          // logged, synced and executed
    | LogThenCrash(cmd: Command, rotates: bool)   // logged and synced, then a crash before it takes effect
    | TornAppend(cmd: Command, rotates: bool)     // a crash inside the log append, before its frame is whole
    | Oversized(cmd: Command)                     // accepted, but too long for a log record
    | Commit(n: Name)                             // one collection committed by a checkpoint
    | Persist(p: Snapshot)                        // the checkpoint's `catalog.pb`, after the last commit
    | Trim(wal: WalImage)                         // segments removed, any number of them
    | Crash
    | CrashInOpen(s: Store, j: nat, t: Store)     // a crash inside `open`, between two replayed entries or in its checkpoint
    | Open(st: State)

  /** A uuid drawn for a create has never been drawn before. */
  predicate FreshUuid(log: Log, cmd: Command) {
    cmd.Create? ==> forall i :: 0 <= i < |log| && log[i].Create? ==> log[i].uuid != cmd.uuid
  }

  /** The write passes its checks, and a new collection gets a uuid no earlier one had. */
  predicate CanWrite(st: State, log: Log, cmd: Command) {
    Accepts(st.store, cmd) && FreshUuid(log, cmd)
  }

  /** A crash leaves the disk `d`; numbers above the highest it mentions will be handed out again. */
  predicate Falls(d: Disk, log: Log, b: Run) {
    b.phase == Down(d) && b.log <= log && IsHighest(d, |b.log|)
  }

  ghost predicate Next(a: Run, step: Step, b: Run) {
    match step
    case Write(cmd, rotates) =>
      && a.phase.Up? && CanWrite(a.phase.st, a.log, cmd) && b.phase.Up?
      && Appends(a.phase.st.wal, a.phase.st.seqNo + 1, cmd, rotates, b.phase.st.wal)
      && b == Run(Up(Written(a.phase.st, cmd, rotates).(wal := b.phase.st.wal)), a.log + [cmd])
    case LogThenCrash(cmd, rotates) =>
      && a.phase.Up? && CanWrite(a.phase.st, a.log, cmd) && b.phase.Down?
      && Appends(a.phase.st.wal, a.phase.st.seqNo + 1, cmd, rotates, b.phase.disk.wal)
      && b == Run(Down(DiskOf(Logged(a.phase.st, cmd, rotates)).(wal := b.phase.disk.wal)), a.log + [cmd])
    case TornAppend(cmd, rotates) =>
      && a.phase.Up? && CanWrite(a.phase.st, a.log, cmd) && b.phase.Down?
      && Tears(a.phase.st.wal, a.phase.st.seqNo + 1, rotates, b.phase.disk.wal)
      && Falls(DiskOf(a.phase.st).(wal := b.phase.disk.wal), a.log, b)
    case Oversized(cmd) =>
      a.phase.Up? && CanWrite(a.phase.st, a.log, cmd) && b == Run(Up(Skipped(a.phase.st)), a.log + [Blank])
    case Commit(n) =>
      a.phase.Up? && n in a.phase.st.store.live && b == Run(Up(Committed(a.phase.st, n)), a.log)
    case Persist(p) =>
      a.phase.Up? && CanPersist(a.phase.st, p) && b == Run(Up(a.phase.st.(snapshot := p)), a.log)
    case Trim(w) =>
      a.phase.Up? && Trims(a.phase.st.wal, w, a.phase.st.snapshot.appliedSeq) && b == Run(Up(a.phase.st.(wal := w)), a.log)
    case Crash => a.phase.Up? && Falls(DiskOf(a.phase.st), a.log, b)
    case CrashInOpen(s, j, t) =>
      && a.phase.Down? && b.phase.Down? && b.log == a.log
      && CrashesInOpen(a.phase.disk, a.log, s, j, t, b.phase.disk)
    case Open(st) => a.phase.Down? && (exists s, top :: Opens(a.phase.disk, s, top, st)) && b == Run(Up(st), a.log)
  }

  /** A log append of the step does not begin a file below the end of the last one. */
  predicate Clear(a: Run, step: Step) {
    a.phase.Up? && (step.Write? || step.LogThenCrash? || step.TornAppend?) ==>
      Clears(a.phase.st.wal, a.phase.st.seqNo + 1, step.rotates)
  }

  /** No entry was added, but rotation may have left an empty segment file for it. */
  function TornDisk(st: State, rotates: bool): Disk {
    DiskOf(st.(wal := TornWal(st.wal, st.seqNo + 1, rotates)))
  }

  /** A checkpoint's commit of one collection at the high-water mark. */
  function Committed(st: State, n: Name): State
    requires n in st.store.live
  {
    st.(store := CommitOne(st.store, n, LogMark(0, 0, st.seqNo)))
  }

  /** `catalog.pb` is written at the high-water mark once every collection is committed there. */
  predicate CanPersist(st: State, p: Snapshot) {
    && (forall n :: n in st.store.live ==> MarkIndex(st.store, n) == st.seqNo)
    && p.appliedSeq == st.seqNo && Lists(p.entries, st.store.live)
  }

  ghost predicate RunOk(a: Run) {
    match a.phase
    case Up(st) => StateOk(st, a.log)
    case Down(d) => FallenOk(d, a.log) && Safe(d, a.log)
  }

  // ---------------------------------------------------------------- longer logs

  /** The write's checks are the log's admission rules. */
  lemma AcceptedIsAdmitted(st: State, log: Log, cmd: Command)
    requires StateOk(st, log) && CanWrite(st, log, cmd)
    ensures WellFormed(log + [cmd]) && CreatesFresh(log + [cmd])
  {
    var longer := log + [cmd];
    forall k | 0 <= k < |longer| ensures Admitted(longer, k) && CreateFresh(longer, k) {
      FoldPrefix(log, cmd, k);
      if k < |log| {
        assert Admitted(log, k) && CreateFresh(log, k);
      } else if !cmd.Blank? {
        ExactName(st.store, log, cmd.name);
      }
    }
  }

  /** On an accepted write, direct execution and replay do the same. */
  lemma ExecuteIsApply(st: State, log: Log, cmd: Command)
    requires StateOk(st, log) && CanWrite(st, log, cmd)
    ensures ApplyCommand(st.store, |log| + 1, cmd) == Ok(Execute(st.store, |log| + 1, cmd))
  {
    if !cmd.Blank? && cmd.name in st.store.live {
      MarksBehind(st, log, cmd.name);
    }
  }

  lemma MarksBehind(st: State, log: Log, n: Name)
    requires StateOk(st, log) && n in st.store.live
    ensures MarkIndex(st.store, n) <= |log|
  {
    ExactName(st.store, log, n);
  }

  /** A logged command, executed or not, leaves a disk from which recovery is exact. */
  lemma LoggedOk(st: State, log: Log, cmd: Command, rotates: bool)
    requires StateOk(st, log) && CanWrite(st, log, cmd)
    ensures DownOk(DiskOf(Logged(st, cmd, rotates)), log + [cmd])
  {
    hide Fold, Exact, Owned, DirsMatchLive, Overtaken, DirExact, ListedOk;
    AcceptedIsAdmitted(st, log, cmd);
    AcceptedNotBlank(st.store, cmd);
    LoggedWal(DiskOf(st), DiskOf(Logged(st, cmd, rotates)), log, cmd, rotates);
    if cmd.Create? {
      NewUuid(st, log, cmd);
    }
    LongerDisk(DiskOf(st), DiskOf(Logged(st, cmd, rotates)), log, cmd);
  }

  lemma AcceptedNotBlank(s: Store, cmd: Command)
    requires Accepts(s, cmd)
    ensures !cmd.Blank?
  {
  }

  lemma LoggedWal(d: Disk, d': Disk, log: Log, cmd: Command, rotates: bool)
    requires WalOk(d, log) && d.snapshot.appliedSeq <= |log| && !cmd.Blank?
    requires d' == d.(wal := AppendWal(d.wal, |log| + 1, cmd, rotates))
    ensures WalOk(d', log + [cmd])
  {
  }

  /** One command more is a new collection, or keeps those it leaves. */
  lemma LongerName(log: Log, cmd: Command, n: Name)
    requires n in Fold(log + [cmd], |log| + 1)
    ensures var c' := Fold(log + [cmd], |log| + 1)[n];
            if n in Fold(log, |log|) then IdentityIn(c') == IdentityIn(Fold(log, |log|)[n]) && cmd != Drop(n)
            else cmd == Create(n, c'.uuid, c'.mapping) && c'.created == |log| + 1
  {
    FoldPrefix(log, cmd, |log|);
  }

  lemma LongerKept(log: Log, cmd: Command, n: Name)
    requires n in Fold(log, |log|) && cmd != Drop(n)
    ensures n in Fold(log + [cmd], |log| + 1)
  {
    FoldPrefix(log, cmd, |log|);
  }

  lemma LongerExact(dir: Dir, log: Log, cmd: Command, n: Name, c: Coll, c': Coll)
    requires DirExact(dir, log, n, c) && c'.created == c.created
    ensures DirExact(dir, log + [cmd], n, c')
  {
    FoldPrefix(log, cmd, MarkOf(dir).index);
  }

  /** A further command overtakes nothing. */
  lemma LongerOvertaken(d: Disk, d': Disk, log: Log, cmd: Command, n: Name, id: Id)
    requires d.snapshot.appliedSeq <= |log| && d'.dirs == d.dirs && d'.snapshot == d.snapshot
    requires Overtaken(d', log + [cmd], n, id)
    ensures Overtaken(d, log, n, id)
  {
    LongerName(log, cmd, n);
    FoldPrefix(log, cmd, |log|);
    FoldPrefix(log, cmd, Since(d, Fold(log, |log|)[n]));
    assert !Touches((log + [cmd])[|log|], n, id);
    assert forall i :: d.snapshot.appliedSeq <= i < |log| ==> (log + [cmd])[i] == log[i];
  }

  /** The same directories and listing are those of a longer log. */
  lemma LongerDisk(d: Disk, d': Disk, log: Log, cmd: Command)
    requires DiskOk(d, log) && d'.dirs == d.dirs && d'.snapshot == d.snapshot && WalOk(d', log + [cmd])
    requires WellFormed(log + [cmd]) && CreatesFresh(log + [cmd]) && (cmd.Create? ==> cmd.uuid !in d.dirs)
    ensures DiskOk(d', log + [cmd])
  {
    hide Fold, WellFormed, CreatesFresh, WalOk, Overtaken, DirExact;
    var longer, a := log + [cmd], d.snapshot.appliedSeq;
    forall n | n in d.snapshot.entries && NoDrop(longer, n, a, |longer|) ensures ListedOk(d', longer, n) {
      assert forall i :: a <= i < |log| ==> longer[i] == log[i];
      assert longer[|log|] != Drop(n) && ListedOk(d, log, n);
      LongerKept(log, cmd, n);
      LongerName(log, cmd, n);
    }
    forall n | n in Fold(longer, |longer|) && Fold(longer, |longer|)[n].created <= a ensures n in d.snapshot.entries {
      LongerName(log, cmd, n);
    }
    forall n | n in Fold(longer, |longer|) && Fold(longer, |longer|)[n].uuid in d.dirs
      ensures DirExact(d.dirs[Fold(longer, |longer|)[n].uuid], longer, n, Fold(longer, |longer|)[n])
    {
      LongerName(log, cmd, n);
      LongerExact(d.dirs[Fold(longer, |longer|)[n].uuid], log, cmd, n, Fold(log, |log|)[n], Fold(longer, |longer|)[n]);
    }
    forall n, id ensures !Overtaken(d', longer, n, id) {
      if Overtaken(d', longer, n, id) {
        LongerOvertaken(d, d', log, cmd, n, id);
      }
    }
  }

  /** A fresh uuid has no directory yet. */
  lemma NewUuid(st: State, log: Log, cmd: Command)
    requires StateOk(st, log) && FreshUuid(log, cmd) && cmd.Create?
    ensures cmd.uuid !in st.store.dirs
  {
  }

  // ---------------------------------------------------------------- steps

  /** Executing a write changes what the store shows as the log's meaning says. */
  lemma ExecuteShows(s: Store, c: Collections, k: nat, cmd: Command)
    requires Shows(s.live, c) && (cmd.Create? ==> cmd.uuid !in s.dirs)
    ensures Shows(Execute(s, k, cmd).live, Effect(c, k, cmd))
  {
    if !cmd.Blank? && cmd.name in s.live {
      assert CollOf(s.live[cmd.name]) == c[cmd.name];
    }
  }

  lemma WrittenStore(st: State, log: Log, cmd: Command)
    requires StateOk(st, log) && CanWrite(st, log, cmd)
    ensures var t := Execute(st.store, |log| + 1, cmd);
            Exact(t, log + [cmd], |log| + 1) && Owned(t, log + [cmd]) && DirsMatchLive(t)
  {
    hide Execute, ApplyCommand, DirsMatchLive, Effect, DiskOk;
    var longer, k := log + [cmd], |log| + 1;
    if cmd.Create? {
      NewUuid(st, log, cmd);
    }
    FoldPrefix(log, cmd, |log|);
    ExecuteShows(st.store, Fold(log, |log|), k, cmd);
    AcceptedIsAdmitted(st, log, cmd);
    ExecuteIsApply(st, log, cmd);
    assert Owned(st.store, longer);
    OwnedStep(st.store, longer, |log|);
    ApplyMatches(st.store, k, cmd);
  }

  /** A write leaves the directory of every other live collection as it was. */
  lemma OtherDirKept(s: Store, k: nat, cmd: Command, n: Name)
    requires DirsMatchLive(s) && n in s.live
    requires cmd.Create? ==> cmd.uuid !in s.dirs
    requires n in Execute(s, k, cmd).live
    ensures Get(Execute(s, k, cmd).dirs, s.live[n].uuid) == Get(s.dirs, s.live[n].uuid)
    ensures Execute(s, k, cmd).live[n].uuid == s.live[n].uuid
  {
    assert s.live[n].uuid in LiveUuids(s.live);
  }

  lemma WrittenDir(st: State, log: Log, cmd: Command, rotates: bool, n: Name)
    requires StateOk(st, log) && CanWrite(st, log, cmd) && n in Fold(log + [cmd], |log| + 1)
    requires Exact(Execute(st.store, |log| + 1, cmd), log + [cmd], |log| + 1)
    ensures DirMoved(DiskOf(Logged(st, cmd, rotates)), log + [cmd], |log| + 1, DiskOf(Written(st, cmd, rotates)), n)
  {
    hide DiskOk, Fold;
    var longer, s := log + [cmd], st.store;
    var t := Execute(s, |longer|, cmd);
    ExactName(t, longer, n);
    if cmd.Create? {
      NewUuid(st, log, cmd);
    }
    if n in s.live {
      OtherDirKept(s, |longer|, cmd, n);
    } else {
      assert cmd.Create? && t.dirs[t.live[n].uuid] == Dir(map[], None);
    }
  }

  lemma WriteKeeps(st: State, log: Log, cmd: Command, rotates: bool)
    requires StateOk(st, log) && CanWrite(st, log, cmd)
    ensures StateOk(Written(st, cmd, rotates), log + [cmd])
  {
    hide Fold, Exact, Owned, DirsMatchLive, SoundDisk, Overtaken, CanWrite, DirMoved, Execute;
    var longer := log + [cmd];
    WrittenStore(st, log, cmd);
    LoggedOk(st, log, cmd, rotates);
    forall n | n in Fold(longer, |longer|)
      ensures DirMoved(DiskOf(Logged(st, cmd, rotates)), longer, |longer|, DiskOf(Written(st, cmd, rotates)), n)
    {
      WrittenDir(st, log, cmd, rotates, n);
    }
    SoundApplied(DiskOf(Logged(st, cmd, rotates)), longer);
    DirsMoved(DiskOf(Logged(st, cmd, rotates)), longer, |longer|, DiskOf(Written(st, cmd, rotates)));
  }

  lemma SoundApplied(d: Disk, log: Log)
    requires SoundDisk(d, log)
    ensures d.snapshot.appliedSeq <= |log|
  {
  }

  lemma CommitKeeps(st: State, log: Log, n: Name)
    requires StateOk(st, log) && n in st.store.live
    ensures StateOk(Committed(st, n), log)
  {
    hide Fold, DirMoved, Overtaken, WellFormed, CreatesFresh, WalOk, DirExact, ListedOk, DirsMatchLive;
    CommitMatches(st.store, n, LogMark(0, 0, st.seqNo));
    forall n' | n' in Fold(log, |log|) ensures DirMoved(DiskOf(st), log, |log|, DiskOf(Committed(st, n)), n') {
      CommittedDir(st, log, n, n');
    }
    DirsMoved(DiskOf(st), log, |log|, DiskOf(Committed(st, n)));
  }

  lemma CommittedDir(st: State, log: Log, n: Name, n': Name)
    requires StateOk(st, log) && n in st.store.live && n' in Fold(log, |log|)
    ensures DirMoved(DiskOf(st), log, |log|, DiskOf(Committed(st, n)), n')
  {
    hide Fold, DiskOk, Owned;
    ExactName(st.store, log, n');
  }

  lemma PersistKeeps(st: State, log: Log, p: Snapshot)
    requires StateOk(st, log) && CanPersist(st, p)
    ensures StateOk(st.(snapshot := p), log)
  {
    var d := DiskOf(st.(snapshot := p));
    forall n | n in Fold(log, |log|)
      ensures var c := Fold(log, |log|)[n]; c.uuid in d.dirs && MarkOf(d.dirs[c.uuid]).index == |log| && d.dirs[c.uuid].docs == c.docs
    {
      ExactName(st.store, log, n);
      AtTopExact(st, log, n);
    }
    TopDisk(st.store, log, d);
  }

  /** A collection committed at the top holds its documents there. */
  lemma AtTopExact(st: State, log: Log, n: Name)
    requires StateOk(st, log) && n in st.store.live && MarkIndex(st.store, n) == |log|
    ensures n in Fold(log, |log|) && st.store.live[n].uuid in st.store.dirs
    ensures st.store.dirs[st.store.live[n].uuid].docs == Fold(log, |log|)[n].docs
  {
    ExactName(st.store, log, n);
    FoldOwner(log, |log|, n);
  }

  lemma TrimKeeps(st: State, log: Log, w: WalImage)
    requires StateOk(st, log) && Trims(st.wal, w, st.snapshot.appliedSeq)
    ensures StateOk(st.(wal := w), log)
  {
    hide Fold, Exact, Owned, DirsMatchLive;
    SameWal(DiskOf(st), log, w);
  }

  /** Nothing depends on the log but the entries above the applied point. */
  lemma SameWal(d: Disk, log: Log, w: WalImage)
    requires DiskOk(d, log) && WalOk(d.(wal := w), log)
    ensures DiskOk(d.(wal := w), log)
  {
    hide Fold;
    var d' := d.(wal := w);
    forall n | n in d.snapshot.entries && NoDrop(log, n, d.snapshot.appliedSeq, |log|) ensures ListedOk(d', log, n) {
      assert ListedOk(d, log, n);
    }
    forall n, id ensures !Overtaken(d', log, n, id) {
      assert !Overtaken(d, log, n, id);
    }
  }

  /** A number is used up: nothing changes but the counter. */
  lemma SkipKeeps(st: State, log: Log)
    requires StateOk(st, log)
    ensures StateOk(Skipped(st), log + [Blank])
  {
    hide SoundDisk, Overtaken;
    var longer := log + [Blank];
    FoldPrefix(log, Blank, |log|);
    assert Fold(longer, |longer|) == Fold(log, |log|);
    SkippedLog(DiskOf(st), log);
    LongerDisk(DiskOf(st), DiskOf(st), log, Blank);
  }

  lemma SkippedLog(d: Disk, log: Log)
    requires SoundDisk(d, log)
    ensures WellFormed(log + [Blank]) && CreatesFresh(log + [Blank]) && WalOk(d, log + [Blank])
  {
    var longer := log + [Blank];
    forall k | 0 <= k < |longer| ensures Admitted(longer, k) && CreateFresh(longer, k) {
      FoldPrefix(log, Blank, k);
      if k < |log| {
        assert Admitted(log, k) && CreateFresh(log, k);
      }
    }
  }

  // ---------------------------------------------------------------- crashes

  /** A crash of a running catalog leaves a disk whose next `open` succeeds and is exact. */
  lemma FallOk(st: State, log: Log, d: Disk, b: Run)
    requires StateOk(st, log) && Falls(d, log, b) && d.dirs == st.store.dirs && d.snapshot == st.snapshot && d.wal.entries == st.wal.entries
    ensures FallenOk(d, b.log)
  {
    SameWal(DiskOf(st), log, d.wal);
    assert d == DiskOf(st).(wal := d.wal);
  }

  /**
   The step is not a crash, or it is one that catches no commit above the numbers on disk, or leaves a
   tail; and if it interrupts a recovery, the applied point it leaves has overtaken no document.
   */
  ghost predicate Gentle(step: Step, b: Run) {
    && ((step.Crash? || step.TornAppend?) && b.phase.Down? ==> Safe(b.phase.disk, b.log))
    && (step.CrashInOpen? && b.phase.Down? ==> Harmless(b.phase.disk, b.log))
  }

  /** A command that was logged and not executed leaves a tail. */
  lemma LoggedSafe(st: State, log: Log, cmd: Command, rotates: bool)
    requires StateOk(st, log) && CanWrite(st, log, cmd)
    ensures var d := DiskOf(Logged(st, cmd, rotates)); FallenOk(d, log + [cmd]) && Safe(d, log + [cmd])
  {
    LoggedOk(st, log, cmd, rotates);
    assert |log| + 1 in DiskOf(Logged(st, cmd, rotates)).wal.entries;
  }

  lemma StepKeeps(a: Run, step: Step, b: Run)
    requires RunOk(a) && Next(a, step, b) && Gentle(step, b) && Clear(a, step)
    ensures RunOk(b)
  {
    hide FallenOk, Safe, StateOk, Opens, NoneOvertaken, CrashesInOpen, Restartable;
    match step
    case Write(cmd, rotates) => WriteKeeps(a.phase.st, a.log, cmd, rotates);
    case LogThenCrash(cmd, rotates) => LoggedSafe(a.phase.st, a.log, cmd, rotates);
    case TornAppend(cmd, rotates) => FallOk(a.phase.st, a.log, b.phase.disk, b);
    case Oversized(cmd) => SkipKeeps(a.phase.st, a.log);
    case Commit(n) => CommitKeeps(a.phase.st, a.log, n);
    case Persist(p) => PersistKeeps(a.phase.st, a.log, p);
    case Trim(w) => TrimKeeps(a.phase.st, a.log, w);
    case Crash => FallOk(a.phase.st, a.log, DiskOf(a.phase.st), b);
    case CrashInOpen(s, j, t) =>
      CrashInOpenKeeps(a.phase.disk, a.log, s, j, t, b.phase.disk);
      FallenIff(b.phase.disk, b.log);
    case Open(st) =>
      var s, top :| Opens(a.phase.disk, s, top, st);
      FallenKeeps(a.phase.disk, a.log, s, top, st);
  }

  // ---------------------------------------------------------------- every run

  ghost predicate Follows(runs: seq<Run>, steps: seq<Step>) {
    |runs| == |steps| + 1 && forall t :: 0 <= t < |steps| ==> Next(runs[t], steps[t], runs[t + 1])
  }

  ghost predicate IsRun(runs: seq<Run>, steps: seq<Step>) {
    Follows(runs, steps) && runs[0] == INITIAL_RUN
  }

  /** No crash of the run catches a commit mark above the numbers on disk without leaving a tail to replay, or overtakes a document. */
  ghost predicate AllGentle(runs: seq<Run>, steps: seq<Step>)
    requires |runs| == |steps| + 1
  {
    forall t {:trigger steps[t]} :: 0 <= t < |steps| ==> Gentle(steps[t], runs[t + 1])
  }

  /** No append of the run begins a segment file below the end of the last one. */
  predicate AllClear(runs: seq<Run>, steps: seq<Step>)
    requires |runs| == |steps| + 1
  {
    forall t {:trigger steps[t]} :: 0 <= t < |steps| ==> Clear(runs[t], steps[t])
  }

  lemma InitialOk()
    ensures RunOk(INITIAL_RUN)
  {
    assert DiskOk(INITIAL_RUN.phase.disk, []);
  }

  lemma {:induction false} RunsOk(runs: seq<Run>, steps: seq<Step>, t: nat)
    requires Follows(runs, steps) && RunOk(runs[0]) && AllGentle(runs, steps) && AllClear(runs, steps) && t < |runs|
    ensures RunOk(runs[t])
  {
    hide RunOk, Next, Gentle, Clear;
    if t > 0 {
      RunsOk(runs, steps, t - 1);
      StepKeeps(runs[t - 1], steps[t - 1], runs[t]);
    }
  }

  /**
   Crash recovery over every run: whenever the catalog is up it shows exactly the collections,
   mappings and documents that its durable commands define, with one directory per collection;
   whenever it is down, `open` succeeds. Without an oversized command every run qualifies in which no
   interrupted recovery overtook a document.
   */
  lemma EveryRunRecovers(runs: seq<Run>, steps: seq<Step>, t: nat)
    requires IsRun(runs, steps) && t < |runs|
    requires (AllGentle(runs, steps) && AllClear(runs, steps)) || AllLogged(runs, steps)
    ensures runs[t].phase.Up? ==>
              Shows(runs[t].phase.st.store.live, Fold(runs[t].log, |runs[t].log|)) && DirsMatchLive(runs[t].phase.st.store)
    ensures runs[t].phase.Down? ==> exists s, st :: Opens(runs[t].phase.disk, s, |runs[t].log|, st)
  {
    if AllGentle(runs, steps) && AllClear(runs, steps) {
      InitialOk();
      RunsOk(runs, steps, t);
    } else {
      FullRuns(runs, steps, t);
    }
    if runs[t].phase.Down? {
      FallenOpens(runs[t].phase.disk, runs[t].log);
    }
  }

  // ---------------------------------------------------------------- runs without an oversized command

  /** Every command fits a log record, and no interrupted recovery leaves an overtaken document. */
  ghost predicate AllLogged(runs: seq<Run>, steps: seq<Step>)
    requires |runs| == |steps| + 1
  {
    forall i {:trigger steps[i]} :: 0 <= i < |steps| ==> !steps[i].Oversized? && (steps[i].CrashInOpen? ==> Gentle(steps[i], runs[i + 1]))
  }

  /** No number was used up. */
  predicate Full(log: Log) {
    forall i :: 0 <= i < |log| ==> !log[i].Blank?
  }

  /** On a disk whose log has no blank, the highest number is the last. */
  lemma FullFalls(st: State, log: Log, d: Disk, b: Run)
    requires StateOk(st, log) && Full(log) && Falls(d, log, b)
    requires d.dirs == st.store.dirs && d.snapshot == st.snapshot && d.wal.entries == st.wal.entries
    ensures b.log == log && Safe(d, b.log)
  {
    assert forall i :: |b.log| <= i < |log| ==> i + 1 in d.wal.entries || log[i].Blank?;
    forall u | u in d.dirs ensures MarkOf(d.dirs[u]).index <= |log| {
      var n :| n in st.store.live && st.store.live[n].uuid == u;
      ExactName(st.store, log, n);
    }
  }

  lemma FullStep(a: Run, step: Step, b: Run)
    requires RunOk(a) && Full(a.log) && Lag(a) == 0 && Next(a, step, b) && !step.Oversized?
    requires step.CrashInOpen? ==> Gentle(step, b)
    ensures Gentle(step, b) && Clear(a, step) && Full(b.log) && NextLag(a, step, b, 0) == 0
  {
    hide DiskOk, FallenOk, Safe, Fold, Opens, Execute, Accepts, FreshUuid, Exact, Owned, DirsMatchLive;
    if step.Crash? {
      FullFalls(a.phase.st, a.log, DiskOf(a.phase.st), b);
    } else if step.TornAppend? {
      FullFalls(a.phase.st, a.log, b.phase.disk, b);
    } else if step.Write? || step.LogThenCrash? {
      assert !step.cmd.Blank? by {
        AcceptedNotBlank(a.phase.st.store, step.cmd);
      }
    }
  }

  lemma {:induction false} FullRuns(runs: seq<Run>, steps: seq<Step>, t: nat)
    requires IsRun(runs, steps) && t < |runs| && AllLogged(runs, steps)
    ensures RunOk(runs[t]) && Numbered(runs[t]) && Full(runs[t].log) && Lag(runs[t]) == 0
  {
    if t == 0 {
      InitialOk();
    } else {
      hide RunOk, Next, Gentle, Clear, NextLag, Lag, Numbered;
      FullRuns(runs, steps, t - 1);
      var a, step, b := runs[t - 1], steps[t - 1], runs[t];
      FullStep(a, step, b);
      StepKeeps(a, step, b);
      NumberedStep(a, step, b);
      LagStep(a, step, b);
    }
  }

  // ---------------------------------------------------------------- the log over a run

  function DiskNow(a: Run): Disk {
    if a.phase.Up? then DiskOf(a.phase.st) else a.phase.disk
  }

  /**
   The numbers are in order: the disk's log entries are commands of the log under their numbers, none
   above the applied point is missing, and no number in use is above the counter.
   */
  predicate Numbered(a: Run) {
    var d := DiskNow(a);
    && d.snapshot.appliedSeq <= |a.log| && WalOk(d, a.log)
    && (forall n :: n in d.snapshot.entries ==> d.snapshot.entries[n].createdSeq <= d.snapshot.appliedSeq)
    && match a.phase
       case Up(st) => st.seqNo == |a.log| && CreatedBy(st.store, |a.log|)
       case Down(_) => IsHighest(d, |a.log|)
  }

  predicate CreatedBy(s: Store, top: nat) {
    forall n :: n in s.live ==> s.live[n].createdSeq <= top
  }

  lemma {:induction false} ReplayCreatedBy(s: Store, log: Log, lo: nat, hi: nat)
    requires lo <= hi <= |log| && CreatedBy(s, lo) && Replay(s, log, lo, hi).Ok?
    ensures CreatedBy(Replay(s, log, lo, hi).value, hi)
    decreases hi
  {
    if lo < hi {
      ReplayCreatedBy(s, log, lo, hi - 1);
    }
  }

  lemma OpenNumbered(d: Disk, log: Log, s: Store, top: nat, st: State)
    requires Numbered(Run(Down(d), log)) && Opens(d, s, top, st)
    ensures Numbered(Run(Up(st), log))
  {
    assert CreatedBy(s, d.snapshot.appliedSeq);
    assert top == |log|;
    var replayed := WalLog(d.wal, top);
    hide Replay, WalLog, Sweeps, Loads;
    ReplayCreatedBy(s, replayed, d.snapshot.appliedSeq, top);
    var t := Replay(s, replayed, d.snapshot.appliedSeq, top).value;
    assert st.store.live == t.live by {
      FinishedLive(d, top, t, st);
    }
    if HasTail(d) {
      forall n | n in st.snapshot.entries ensures st.snapshot.entries[n].createdSeq <= top {
        assert st.snapshot.entries[n] == IdentityOf(t.live[n]);
      }
    }
  }

  /** Whatever `catalog.pb` lists in the middle of a recovery was created by its applied point. */
  lemma {:induction false} PersistedCreatedBy(d: Disk, log: Log, s: Store, j: nat, p: Snapshot)
    requires d.snapshot.appliedSeq <= j <= |log| && Replay(s, log, d.snapshot.appliedSeq, j).Ok? && PersistedThrough(d, log, s, j, p)
    requires CreatedBy(s, d.snapshot.appliedSeq) && forall n :: n in d.snapshot.entries ==> d.snapshot.entries[n].createdSeq <= d.snapshot.appliedSeq
    ensures d.snapshot.appliedSeq <= p.appliedSeq <= j && forall n :: n in p.entries ==> p.entries[n].createdSeq <= p.appliedSeq
    decreases j
  {
    var a := d.snapshot.appliedSeq;
    if a < j {
      var before, after := Replay(s, log, a, j - 1).value, Replay(s, log, a, j).value;
      var p0 :| PersistedThrough(d, log, s, j - 1, p0) && PersistsTo(p0, before, j, log[j - 1], after, p);
      PersistedCreatedBy(d, log, s, j - 1, p0);
      ReplayCreatedBy(s, log, a, j);
      hide ApplyCommand, Replay;
      forall n | n in p.entries && p != p0 ensures p.entries[n].createdSeq <= j {
        assert p.entries[n] == IdentityOf(after.live[n]);
      }
    }
  }

  lemma CrashInOpenNumbered(d: Disk, log: Log, s: Store, j: nat, t: Store, e: Disk)
    requires Numbered(Run(Down(d), log)) && CrashesInOpen(d, log, s, j, t, e)
    ensures Numbered(Run(Down(e), log))
  {
    hide Replay, PersistedThrough, PartlyCommitted, HasTail;
    assert CreatedBy(s, d.snapshot.appliedSeq);
    PersistedCreatedBy(d, log, s, j, e.snapshot);
  }

  lemma NumberedStep(a: Run, step: Step, b: Run)
    requires Numbered(a) && Next(a, step, b) && Clear(a, step)
    ensures Numbered(b)
  {
    hide Opens, Fold, Execute, Accepts, FreshUuid, CommitOne, WalOk, IsHighest, CrashesInOpen;
    match step
    case CrashInOpen(s, j, t) => CrashInOpenNumbered(a.phase.disk, a.log, s, j, t, b.phase.disk);
    case Open(st) =>
      var s, top :| Opens(a.phase.disk, s, top, st);
      OpenNumbered(a.phase.disk, a.log, s, top, st);
    case Write(cmd, rotates) =>
      WriteNumbered(a.phase.st, a.log, cmd, rotates);
      ExecuteCreatedBy(a.phase.st.store, a.phase.st.seqNo + 1, cmd);
    case LogThenCrash(cmd, rotates) => WriteNumbered(a.phase.st, a.log, cmd, rotates);
    case TornAppend(cmd, rotates) => FallNumbered(a.phase.st, a.log, b.phase.disk, b);
    case Crash => FallNumbered(a.phase.st, a.log, DiskOf(a.phase.st), b);
    case Oversized(cmd) => SkipNumbered(DiskOf(a.phase.st), a.log);
    case Commit(n) => CommitLive(a.phase.st, a.log, n);
    case Persist(p) =>
      PersistNumbered(DiskOf(a.phase.st), a.log, p);
      forall n | n in p.entries ensures p.entries[n].createdSeq <= p.appliedSeq {
        assert p.entries[n] == IdentityOf(a.phase.st.store.live[n]);
      }
    case Trim(w) => TrimNumbered(DiskOf(a.phase.st), a.log, w);
  }

  lemma WriteNumbered(st: State, log: Log, cmd: Command, rotates: bool)
    requires WalOk(DiskOf(st), log) && st.snapshot.appliedSeq <= |log| == st.seqNo && Accepts(st.store, cmd)
    ensures var d := DiskOf(Logged(st, cmd, rotates)); WalOk(d, log + [cmd]) && IsHighest(d, |log| + 1)
    ensures WalOk(DiskOf(Written(st, cmd, rotates)), log + [cmd])
  {
    LoggedWal(DiskOf(st), DiskOf(Logged(st, cmd, rotates)), log, cmd, rotates);
  }

  lemma FallNumbered(st: State, log: Log, d: Disk, b: Run)
    requires WalOk(DiskOf(st), log) && Falls(d, log, b) && d.snapshot == st.snapshot && d.wal.entries == st.wal.entries
    ensures WalOk(d, b.log) && d.snapshot.appliedSeq <= |b.log|
  {
    ShorterWal(d, b.log, log);
  }

  lemma SkipNumbered(d: Disk, log: Log)
    requires WalOk(d, log)
    ensures WalOk(d, log + [Blank])
  {
  }

  lemma PersistNumbered(d: Disk, log: Log, p: Snapshot)
    requires WalOk(d, log) && p.appliedSeq == |log|
    ensures WalOk(d.(snapshot := p), log)
  {
  }

  lemma TrimNumbered(d: Disk, log: Log, w: WalImage)
    requires WalOk(d, log) && Trims(d.wal, w, d.snapshot.appliedSeq)
    ensures WalOk(d.(wal := w), log)
  {
  }

  lemma CommitLive(st: State, log: Log, n: Name)
    requires n in st.store.live && WalOk(DiskOf(st), log)
    ensures Committed(st, n).store.live == st.store.live && WalOk(DiskOf(Committed(st, n)), log)
  {
  }

  lemma ExecuteCreatedBy(s: Store, k: nat, cmd: Command)
    requires CreatedBy(s, k)
    ensures CreatedBy(Execute(s, k, cmd), k)
  {
  }

  lemma {:induction false} RunsNumbered(runs: seq<Run>, steps: seq<Step>, t: nat)
    requires IsRun(runs, steps) && AllClear(runs, steps) && t < |runs|
    ensures Numbered(runs[t])
  {
    hide Next;
    if t > 0 {
      hide Numbered, Clear;
      RunsNumbered(runs, steps, t - 1);
      NumberedStep(runs[t - 1], steps[t - 1], runs[t]);
    }
  }

  /** Every command of `log` is in `log'` under the same number. */
  predicate Retains(log: Log, log': Log) {
    forall i :: 0 <= i < |log| && !log[i].Blank? ==> i < |log'| && log'[i] == log[i]
  }

  lemma RetainStep(a: Run, step: Step, b: Run)
    requires Numbered(a) && Next(a, step, b)
    ensures Retains(a.log, b.log)
  {
    if step.Crash? || step.TornAppend? {
      var d := b.phase.disk;
      forall i | |b.log| <= i < |a.log| ensures a.log[i].Blank? {
        assert i + 1 in d.wal.entries || a.log[i].Blank?;
      }
    }
  }

  lemma RetainsSelf(a: Log)
    ensures Retains(a, a)
  {
  }

  lemma RetainsOn(a: Log, b: Log, c: Log)
    requires Retains(a, b) && Retains(b, c)
    ensures Retains(a, c)
  {
  }

  /** Durable commands are never lost, and never move: each keeps its number for the rest of the run. */
  lemma {:induction false} CommandsStay(runs: seq<Run>, steps: seq<Step>, t: nat, t': nat)
    requires IsRun(runs, steps) && AllClear(runs, steps) && t <= t' < |runs|
    ensures Retains(runs[t].log, runs[t'].log)
    decreases t'
  {
    hide Numbered, Next, Retains;
    if t < t' {
      CommandsStay(runs, steps, t, t' - 1);
      RunsNumbered(runs, steps, t' - 1);
      RetainStep(runs[t' - 1], steps[t' - 1], runs[t']);
      RetainsOn(runs[t].log, runs[t' - 1].log, runs[t'].log);
    } else {
      RetainsSelf(runs[t].log);
    }
  }

  /** Trimming never loses a needed entry, at any point of any run. */
  lemma EveryTrimSafe(runs: seq<Run>, steps: seq<Step>, t: nat)
    requires IsRun(runs, steps) && AllClear(runs, steps) && t < |runs|
    ensures var d := DiskNow(runs[t]);
            forall i :: d.snapshot.appliedSeq < i <= |runs[t].log| && !runs[t].log[i - 1].Blank? ==>
              i in d.wal.entries && d.wal.entries[i] == runs[t].log[i - 1]
  {
    RunsNumbered(runs, steps, t);
  }

  // ---------------------------------------------------------------- contiguity

  /** How far the next frame's index lags behind the next number; nothing lags without a segment file. */
  function Lag(a: Run): int {
    var w := DiskNow(a).wal;
    if w.next.None? then 0 else |a.log| + 1 - w.next.value
  }

  /** How a step changes the lag `l`. */
  function NextLag(a: Run, step: Step, b: Run, l: int): int {
    var filed := DiskNow(a).wal.next.Some?;
    match step
    case Oversized(_) => if filed then l + 1 else 0
    case Write(_, rotates) => if rotates || !filed then 0 else l
    case LogThenCrash(_, rotates) => if rotates || !filed then 0 else l
    case TornAppend(_, rotates) => (if rotates || !filed then 0 else l) - (|a.log| - |b.log|)
    case Crash => if filed then l - (|a.log| - |b.log|) else 0
    case _ => l
  }

  /**
   Numbers used up by oversized commands since the last segment file was begun, less those a crash
   hands back because the disk does not mention them.
   */
  function UsedUp(runs: seq<Run>, steps: seq<Step>, t: nat): int
    requires |runs| == |steps| + 1 && t < |runs|
  {
    if t == 0 then 0 else NextLag(runs[t - 1], steps[t - 1], runs[t], UsedUp(runs, steps, t - 1))
  }

  lemma LagStep(a: Run, step: Step, b: Run)
    requires Next(a, step, b) && Clear(a, step) && Numbered(a) && Numbered(b)
    ensures Lag(b) == NextLag(a, step, b, Lag(a))
  {
    hide Fold, CanWrite, Loads, IsTop, Replay, WalLog, WalOk, CommitsAll, Sweeps, CreatedBy, Execute, PersistedThrough, PartlyCommitted;
    if step.Open? {
      var s, top :| Opens(a.phase.disk, s, top, step.st);
    }
  }

  lemma {:induction false} LagIs(runs: seq<Run>, steps: seq<Step>, t: nat)
    requires IsRun(runs, steps) && AllClear(runs, steps) && t < |runs|
    ensures Lag(runs[t]) == UsedUp(runs, steps, t)
  {
    hide NextLag, Numbered, Next, Clear;
    RunsNumbered(runs, steps, t);
    if t > 0 {
      LagIs(runs, steps, t - 1);
      RunsNumbered(runs, steps, t - 1);
      LagStep(runs[t - 1], steps[t - 1], runs[t]);
    }
  }

  /**
   Contiguity over every run, exactly: the number an append is given is the index its frame will be
   read back under if and only if the numbers used up since the last segment file was begun are as
   many as those that crashes have handed back since. No number is given to two durable commands.
   */
  lemma EveryAppendContiguousIff(runs: seq<Run>, steps: seq<Step>, t: nat)
    requires IsRun(runs, steps) && AllClear(runs, steps) && t < |runs| && runs[t].phase.Up?
    ensures Contiguous(runs[t].phase.st.wal, runs[t].phase.st.seqNo + 1) <==> UsedUp(runs, steps, t) == 0
    ensures runs[t].phase.st.seqNo == |runs[t].log|
    ensures forall i :: i in runs[t].phase.st.wal.entries ==> i <= runs[t].phase.st.seqNo
  {
    RunsNumbered(runs, steps, t);
    LagIs(runs, steps, t);
  }

  /** Without oversized commands every append is contiguous. */
  lemma EveryAppendContiguous(runs: seq<Run>, steps: seq<Step>, t: nat)
    requires IsRun(runs, steps) && t < |runs| && AllLogged(runs, steps)
    ensures runs[t].phase.Up? ==> Contiguous(runs[t].phase.st.wal, runs[t].phase.st.seqNo + 1)
  {
    FullRuns(runs, steps, t);
  }
}
