/**
 Recovery of the single-node catalog: from every disk a crash can leave, `open` succeeds and shows
 exactly the fold of the durable commands.
 */
module StandaloneRecovery {
  import opened Outcome
  import opened Commands
  import opened Stores
  import opened Replays
  import opened Standalone

  /** The sequence counter restarts at the last number on the disk. */
  lemma TopIsLength(d: Disk, log: Log, s: Store, top: nat)
    requires SoundDisk(d, log) && IsHighest(d, |log|) && Loads(d, s)
    ensures IsTop(d, s, top) <==> top == |log|
  {
    forall n | n in s.live ensures s.live[n].createdSeq <= d.snapshot.appliedSeq {
      KeptFacts(d, log, n);
    }
  }

  /** Exactly the listed collections that survive the tail are loaded, and they are what the log defines. */
  lemma KeptFacts(d: Disk, log: Log, n: Name)
    requires SoundDisk(d, log)
    ensures var a := d.snapshot.appliedSeq;
            && (Kept(d, n) <==> n in d.snapshot.entries && NoDrop(log, n, a, |log|))
            && (Kept(d, n) <==> n in Fold(log, |log|) && Fold(log, |log|)[n].created <= a)
            && (Kept(d, n) ==> ListedOk(d, log, n))
  {
    var a := d.snapshot.appliedSeq;
    if n in d.snapshot.entries && !NoDrop(log, n, a, |log|) {
      var i :| a <= i < |log| && log[i] == Drop(n);
      assert i + 1 in d.wal.entries;
    }
    if n in Fold(log, |log|) && Fold(log, |log|)[n].created <= a {
      FoldSince(log, n, a, |log|);
    }
  }

  /** Every kept entry has its directory, so `open` does not refuse the disk. */
  lemma LoadPossible(d: Disk, log: Log) returns (s: Store)
    requires SoundDisk(d, log)
    ensures Loads(d, s)
  {
    forall n | Kept(d, n) ensures d.snapshot.entries[n].uuid in d.dirs {
      KeptFacts(d, log, n);
    }
    s := Store(map n | n in d.snapshot.entries && Kept(d, n) :: OpenEntry(d.snapshot.entries[n], d.dirs), d.dirs);
  }

  lemma LoadedOwned(d: Disk, log: Log, s: Store)
    requires SoundDisk(d, log) && Loads(d, s)
    ensures Owned(s, log)
  {
    forall n | n in s.live
      ensures var e := s.live[n];
              1 <= e.createdSeq <= |log| && log[e.createdSeq - 1] == Create(n, e.uuid, e.mapping) && e.uuid in s.dirs
    {
      KeptFacts(d, log, n);
      FoldOwner(log, |log|, n);
    }
  }

  /** The directory of an instance holds its documents at the position it stands for. */
  lemma DirSince(d: Disk, log: Log, n: Name, id: Id)
    requires SoundDisk(d, log) && n in Fold(log, |log|) && Fold(log, |log|)[n].uuid in d.dirs
    ensures var c := Fold(log, |log|)[n];
            && c.created <= Since(d, c) <= |log| && n in Fold(log, Since(d, c)) && NoDrop(log, n, Since(d, c), |log|)
            && Get(d.dirs[c.uuid].docs, id) == DocAt(log, Since(d, c), n, id)
  {
    var c := Fold(log, |log|)[n];
    assert DirExact(d.dirs[c.uuid], log, n, c);
    hide SoundDisk, DirExact, Fold;
    ExactSince(log, n, c, d.dirs[c.uuid], id);
  }

  lemma ExactSince(log: Log, n: Name, c: Coll, dir: Dir, id: Id)
    requires n in Fold(log, |log|) && c == Fold(log, |log|)[n] && DirExact(dir, log, n, c)
    ensures var k := Max(c.created, MarkOf(dir).index);
            k <= |log| && n in Fold(log, k) && NoDrop(log, n, k, |log|) && Get(dir.docs, id) == DocAt(log, k, n, id)
  {
    hide Fold;
    FoldOwner(log, |log|, n);
    FoldSince(log, n, Max(c.created, MarkOf(dir).index), |log|);
    BornEmptySince(log, n, c);
  }

  lemma BornEmptySince(log: Log, n: Name, c: Coll)
    requires n in Fold(log, |log|) && c == Fold(log, |log|)[n]
    ensures c.created <= |log| && n in Fold(log, c.created) && Fold(log, c.created)[n].docs == map[]
  {
    hide Fold;
    FoldOwner(log, |log|, n);
    FoldSince(log, n, c.created, |log|);
    BornEmpty(log, n, c.created);
  }

  /** A directory's documents are settled for replay above the position it stands for. */
  lemma DirSettled(d: Disk, log: Log, n: Name)
    requires SoundDisk(d, log) && n in Fold(log, |log|) && Fold(log, |log|)[n].uuid in d.dirs
    ensures var c := Fold(log, |log|)[n]; SettledDocs(log, n, d.dirs[c.uuid].docs, Since(d, c), |log|)
  {
    var c := Fold(log, |log|)[n];
    forall id ensures Settled(log, n, id, Get(d.dirs[c.uuid].docs, id), Since(d, c), |log|) {
      DirSince(d, log, n, id);
      TouchedIsDoc(log, n, id, Since(d, c), |log|);
    }
  }

  /** A loaded document is settled for replay above the applied point, unless that point overtook it. */
  lemma LoadedSettledIff(d: Disk, log: Log, s: Store, n: Name, id: Id)
    requires SoundDisk(d, log) && Loads(d, s) && n in s.live
    ensures var a := d.snapshot.appliedSeq;
            Settled(log, n, id, Get(s.live[n].buffer, id), Max(a, MarkIndex(s, n)), |log|) <==> !Overtaken(d, log, n, id)
  {
    var a, hi := d.snapshot.appliedSeq, |log|;
    KeptFacts(d, log, n);
    var c := Fold(log, hi)[n];
    var v, lo := Get(s.live[n].buffer, id), Since(d, c);
    DirSince(d, log, n, id);
    FoldSince(log, n, a, hi);
    if lo < a {
      SettledIff(log, n, id, v, a, hi);
    } else {
      TouchedIsDoc(log, n, id, lo, hi);
    }
  }

  /** The loaded store is ready for the tail exactly when the applied point has overtaken no document. */
  lemma LoadedReadyIff(d: Disk, log: Log, s: Store)
    requires SoundDisk(d, log) && Loads(d, s)
    ensures Ready(s, log, d.snapshot.appliedSeq, |log|) <==> NoneOvertaken(d, log)
  {
    var a, hi := d.snapshot.appliedSeq, |log|;
    if Ready(s, log, a, hi) {
      forall n, id ensures !Overtaken(d, log, n, id) {
        assert ReadyName(s, log, a, hi, n);
        KeptFacts(d, log, n);
        if n in s.live {
          LoadedSettledIff(d, log, s, n, id);
        }
      }
    }
    if NoneOvertaken(d, log) {
      forall n ensures ReadyName(s, log, a, hi, n) {
        LoadedName(d, log, s, n);
      }
    }
  }

  lemma LoadedName(d: Disk, log: Log, s: Store, n: Name)
    requires SoundDisk(d, log) && Loads(d, s) && forall id :: !Overtaken(d, log, n, id)
    ensures ReadyName(s, log, d.snapshot.appliedSeq, |log|, n)
  {
    var a, hi := d.snapshot.appliedSeq, |log|;
    KeptFacts(d, log, n);
    if n in s.live {
      forall id ensures Settled(log, n, id, Get(s.live[n].buffer, id), Max(a, MarkIndex(s, n)), hi) {
        LoadedSettledIff(d, log, s, n, id);
      }
    } else if NoDrop(log, n, a, hi) && n in Fold(log, a) {
      FoldKeeps(log, n, a, hi);
      FoldOwner(log, a, n);
    }
    if n in Fold(log, hi) && Fold(log, hi)[n].uuid in d.dirs {
      DirSettled(d, log, n);
    }
  }

  /** Recovery meets no document its target's mapping cannot build. */
  lemma LoadedRuns(d: Disk, log: Log, s: Store)
    requires SoundDisk(d, log) && Loads(d, s)
    ensures Replay(s, log, d.snapshot.appliedSeq, |log|).Ok?
  {
    var a, hi := d.snapshot.appliedSeq, |log|;
    LoadedOwned(d, log, s);
    forall j | a <= j < hi ensures !StuckAt(s, log, a, j) {
      LoadedFits(d, log, s, j);
    }
    ReplayFailsIff(s, log, a, hi);
  }

  lemma LoadedFits(d: Disk, log: Log, s: Store, j: nat)
    requires SoundDisk(d, log) && Loads(d, s) && d.snapshot.appliedSeq <= j < |log|
    ensures !StuckAt(s, log, d.snapshot.appliedSeq, j)
  {
    var a, hi := d.snapshot.appliedSeq, |log|;
    if log[j].Index? {
      var n := log[j].name;
      assert Admitted(log, j);
      KeptFacts(d, log, n);
      if n in s.live {
        FoldSince(log, n, j, hi);
      }
      forall c | a <= c < j && Installs(s, log, a, c, n) && NoDrop(log, n, c, j)
        ensures Fold(log, j)[n].mapping == log[c].mapping
      {
        assert CreateFresh(log, c);
        FoldKeeps(log, n, c + 1, j);
      }
    }
  }

  /** Replay reads only the positions it covers. */
  lemma {:induction false} ReplayAgrees(s: Store, log: Log, log': Log, lo: nat, hi: nat)
    requires lo <= hi <= |log| && hi <= |log'| && forall i :: lo <= i < hi ==> log[i] == log'[i]
    ensures Replay(s, log, lo, hi) == Replay(s, log', lo, hi)
    decreases hi
  {
    if lo < hi {
      ReplayAgrees(s, log, log', lo, hi - 1);
    }
  }

  /** The write-ahead log gives replay the same commands as the log of durable commands. */
  lemma WalReplays(d: Disk, log: Log, s: Store)
    requires WalOk(d, log) && d.snapshot.appliedSeq <= |log|
    ensures Replay(s, WalLog(d.wal, |log|), d.snapshot.appliedSeq, |log|) == Replay(s, log, d.snapshot.appliedSeq, |log|)
  {
    var a, hi := d.snapshot.appliedSeq, |log|;
    forall i | a <= i < hi ensures WalLog(d.wal, hi)[i] == log[i] {
      assert i + 1 in d.wal.entries || log[i].Blank?;
    }
    ReplayAgrees(s, log, WalLog(d.wal, hi), a, hi);
  }

  /**
   Recovery from any sound disk: replay meets no error, and ends in the fold of every durable command
   in sequence order if and only if the applied point has overtaken no document.
   */
  lemma RecoveryExactIff(d: Disk, log: Log, s: Store)
    requires SoundDisk(d, log) && Loads(d, s)
    ensures var result := Replay(s, WalLog(d.wal, |log|), d.snapshot.appliedSeq, |log|);
            && result.Ok? && Owned(result.value, log)
            && (Shows(result.value.live, Fold(log, |log|)) <==> NoneOvertaken(d, log))
  {
    LoadedOwned(d, log, s);
    LoadedReadyIff(d, log, s);
    LoadedRuns(d, log, s);
    ReplayConvergesIff(s, log, d.snapshot.appliedSeq, |log|);
    WalReplays(d, log, s);
  }

  /**
   Standalone recovery, on every disk a crash can leave: replay meets no error, and the result is
   the fold of every durable command in sequence order.
   */
  lemma RecoveryIsExact(d: Disk, log: Log, s: Store)
    requires DiskOk(d, log) && Loads(d, s)
    ensures var result := Replay(s, WalLog(d.wal, |log|), d.snapshot.appliedSeq, |log|);
            result.Ok? && Shows(result.value.live, Fold(log, |log|)) && Owned(result.value, log)
  {
    RecoveryExactIff(d, log, s);
  }

  // ---------------------------------------------------------------- the reopened catalog

  /** A directory holding all of a collection's documents at the end of the log is exact. */
  lemma CommittedExact(log: Log, n: Name, d: Dir)
    requires n in Fold(log, |log|)
    requires MarkOf(d).index == |log| && d.docs == Fold(log, |log|)[n].docs
    ensures DirExact(d, log, n, Fold(log, |log|)[n])
  {
    FoldOwner(log, |log|, n);
  }

  /** Names the store shows, with what the log says of them. */
  lemma ExactName(s: Store, log: Log, n: Name)
    requires Exact(s, log, |log|)
    ensures n in s.live <==> n in Fold(log, |log|)
    ensures n in s.live ==> CollOf(s.live[n]) == Fold(log, |log|)[n]
  {
  }

  /** With the applied point at the top, `catalog.pb` need only list the entries of an exact store. */
  lemma ExactLists(s: Store, log: Log, d: Disk)
    requires Exact(s, log, |log|) && Owned(s, log) && Lists(d.snapshot.entries, s.live) && d.snapshot.appliedSeq == |log|
    requires forall n :: n in s.live ==> s.live[n].uuid in d.dirs
    ensures forall n :: n in d.snapshot.entries ==> ListedOk(d, log, n)
    ensures forall n :: n in Fold(log, |log|) ==> n in d.snapshot.entries
  {
    forall n | n in s.live ensures d.snapshot.entries[n] == IdentityOf(s.live[n]) && CollOf(s.live[n]) == Fold(log, |log|)[n] { }
  }

  /** Every live collection is committed at the end of the log. */
  predicate AllAtTop(d: Disk, log: Log) {
    forall n :: n in Fold(log, |log|) ==>
      var c := Fold(log, |log|)[n]; c.uuid in d.dirs && MarkOf(d.dirs[c.uuid]).index == |log| && d.dirs[c.uuid].docs == c.docs
  }

  /** The disk of a completed checkpoint. */
  lemma TopDisk(s: Store, log: Log, d: Disk)
    requires WellFormed(log) && CreatesFresh(log) && WalOk(d, log) && AllAtTop(d, log)
    requires Exact(s, log, |log|) && Owned(s, log) && Lists(d.snapshot.entries, s.live) && d.snapshot.appliedSeq == |log|
    ensures DiskOk(d, log)
  {
    hide WellFormed, CreatesFresh, WalOk, Owned, DirExact, ListedOk;
    forall n | n in s.live ensures s.live[n].uuid in d.dirs {
      ExactName(s, log, n);
    }
    ExactLists(s, log, d);
    hide Exact, Lists;
    forall n | n in Fold(log, |log|) ensures DirExact(d.dirs[Fold(log, |log|)[n].uuid], log, n, Fold(log, |log|)[n]) {
      CommittedExact(log, n, d.dirs[Fold(log, |log|)[n].uuid]);
    }
    forall n, id ensures !Overtaken(d, log, n, id) {
    }
  }

  lemma OwnedDistinct(s: Store, log: Log)
    requires Owned(s, log) && DistinctUuids(log)
    ensures forall n, n' :: n in s.live && n' in s.live && n != n' ==> s.live[n].uuid != s.live[n'].uuid
  {
    forall n, n' | n in s.live && n' in s.live && n != n' ensures s.live[n].uuid != s.live[n'].uuid {
      if s.live[n].uuid == s.live[n'].uuid {
        OwnedUuids(s, log, n, n');
      }
    }
  }

  /** The end of a recovery that replayed something: everything is committed at the top. */
  lemma CheckpointedOk(s: Store, log: Log, w: WalImage, st: State)
    requires WellFormed(log) && CreatesFresh(log) && Exact(s, log, |log|) && Owned(s, log)
    requires forall i :: i in w.entries ==> 1 <= i <= |log| && w.entries[i] == log[i - 1] && !log[i - 1].Blank?
    requires Trims(w, st.wal, |log|)
    requires CommitsAll(s, st.store, LogMark(0, 0, |log|)) && st.seqNo == |log|
    requires st.snapshot.appliedSeq == |log| && Lists(st.snapshot.entries, s.live)
    ensures StateOk(st, log)
  {
    forall n | n in Fold(log, |log|)
      ensures var c := Fold(log, |log|)[n];
              c.uuid in st.store.dirs && MarkOf(st.store.dirs[c.uuid]).index == |log| && st.store.dirs[c.uuid].docs == c.docs
    {
      ExactName(s, log, n);
    }
    hide Exact, Owned, CreatesFresh, Fold, DistinctUuids;
    TopDisk(s, log, DiskOf(st));
    CommittedStore(s, log, st.store, LogMark(0, 0, |log|));
  }

  lemma CommittedStore(s: Store, log: Log, t: Store, mark: LogMark)
    requires DistinctUuids(log) && Exact(s, log, |log|) && Owned(s, log) && CommitsAll(s, t, mark)
    ensures Exact(t, log, |log|) && Owned(t, log) && DirsMatchLive(t)
  {
    OwnedDistinct(s, log);
  }

  /** The directory of a live collection is the same, new and empty, or committed with its documents at `top`. */
  predicate DirMoved(d: Disk, log: Log, top: nat, d': Disk, n: Name)
    requires n in Fold(log, |log|) && top <= |log|
  {
    var c := Fold(log, |log|)[n];
    || Get(d'.dirs, c.uuid) == Get(d.dirs, c.uuid)
    || (c.uuid !in d.dirs && Get(d'.dirs, c.uuid) == Some(Dir(map[], None)))
    || (c.uuid in d'.dirs && MarkOf(d'.dirs[c.uuid]).index == top && n in Fold(log, top) && d'.dirs[c.uuid].docs == Fold(log, top)[n].docs)
  }

  lemma MovedExact(d: Disk, log: Log, top: nat, d': Disk, n: Name)
    requires top <= |log| && n in Fold(log, |log|) && DirMoved(d, log, top, d', n)
    requires Fold(log, |log|)[n].uuid in d.dirs ==> DirExact(d.dirs[Fold(log, |log|)[n].uuid], log, n, Fold(log, |log|)[n])
    requires Fold(log, top) == Fold(log, |log|)
    ensures Fold(log, |log|)[n].uuid in d'.dirs ==> DirExact(d'.dirs[Fold(log, |log|)[n].uuid], log, n, Fold(log, |log|)[n])
    ensures Since(d', Fold(log, |log|)[n]) == Since(d, Fold(log, |log|)[n]) || top <= Since(d', Fold(log, |log|)[n])
  {
    FoldOwner(log, top, n);
  }

  /** Such changes keep a disk sound, and no document is overtaken that was not before. */
  lemma DirsMoved(d: Disk, log: Log, top: nat, d': Disk)
    requires SoundDisk(d, log) && d'.snapshot == d.snapshot && d'.wal == d.wal
    requires d.snapshot.appliedSeq <= top <= |log| && Fold(log, top) == Fold(log, |log|)
    requires forall n :: n in Fold(log, |log|) ==> DirMoved(d, log, top, d', n)
    ensures SoundDisk(d', log) && forall n, id :: Overtaken(d', log, n, id) ==> Overtaken(d, log, n, id)
  {
    hide Fold, WellFormed, CreatesFresh, DirExact, Since;
    forall n | n in d.snapshot.entries && NoDrop(log, n, d.snapshot.appliedSeq, |log|) ensures ListedOk(d', log, n) {
      assert ListedOk(d, log, n) && DirMoved(d, log, top, d', n);
    }
    forall n | n in Fold(log, |log|)
      ensures Fold(log, |log|)[n].uuid in d'.dirs ==> DirExact(d'.dirs[Fold(log, |log|)[n].uuid], log, n, Fold(log, |log|)[n])
      ensures Since(d', Fold(log, |log|)[n]) == Since(d, Fold(log, |log|)[n]) || top <= Since(d', Fold(log, |log|)[n])
    {
      MovedExact(d, log, top, d', n);
    }
  }

  /** The sweep leaves each live collection its directory and no other. */
  lemma SweepFacts(s: Store, log: Log, t: Store)
    requires Owned(s, log) && DistinctUuids(log) && Sweeps(s, t)
    ensures Owned(t, log) && DirsMatchLive(t)
    ensures forall n :: n in s.live ==> s.live[n].uuid in t.dirs && t.dirs[s.live[n].uuid] == s.dirs[s.live[n].uuid]
  {
    OwnedDistinct(s, log);
    forall n | n in s.live ensures s.live[n].uuid in LiveUuids(s.live) { }
    assert LiveUuids(s.live) <= s.dirs.Keys;
  }

  /** With nothing to replay, the swept store is already consistent with the disk. */
  lemma SweptOk(d: Disk, s: Store, log: Log, t: Store)
    requires DiskOk(d, log) && d.snapshot.appliedSeq == |log| && s.dirs == d.dirs
    requires Exact(s, log, |log|) && Owned(s, log) && Sweeps(s, t)
    ensures StateOk(State(t, d.snapshot, d.wal, |log|), log)
  {
    SweepFacts(s, log, t);
    var d' := Disk(t.dirs, d.snapshot, d.wal);
    forall n | n in Fold(log, |log|) ensures Get(d'.dirs, Fold(log, |log|)[n].uuid) == Get(d.dirs, Fold(log, |log|)[n].uuid) {
      ExactName(s, log, n);
    }
    DirsMoved(d, log, |log|, d');
  }

  /** Whatever `open` makes of such a disk is a consistent running catalog. */
  lemma OpenKeeps(d: Disk, log: Log, s: Store, top: nat, st: State)
    requires DownOk(d, log) && Opens(d, s, top, st)
    ensures StateOk(st, log)
  {
    TopIsLength(d, log, s, top);
    RecoveryIsExact(d, log, s);
    var t := Replay(s, WalLog(d.wal, top), d.snapshot.appliedSeq, top).value;
    if HasTail(d) {
      CheckpointedOk(t, log, d.wal, st);
    } else {
      assert d.snapshot.appliedSeq == |log|;
      SweptOk(d, t, log, st.store);
    }
  }

  /** `open` succeeds on every sound disk. */
  lemma OpenSucceeds(d: Disk, log: Log)
    requires SoundDisk(d, log) && IsHighest(d, |log|)
    ensures exists s, st :: Opens(d, s, |log|, st)
  {
    var s := LoadPossible(d, log);
    TopIsLength(d, log, s, |log|);
    RecoveryExactIff(d, log, s);
    var t := Replay(s, WalLog(d.wal, |log|), d.snapshot.appliedSeq, |log|).value;
    OwnedDistinct(t, log);
    var st := FinishPossible(d, |log|, t);
    assert Opens(d, s, |log|, st);
  }

  /** What `open` shows on a sound disk is exact if and only if the applied point has overtaken no document. */
  lemma OpenExactIff(d: Disk, log: Log, s: Store, top: nat, st: State)
    requires SoundDisk(d, log) && IsHighest(d, |log|) && Opens(d, s, top, st)
    ensures top == |log|
    ensures Shows(st.store.live, Fold(log, |log|)) <==> NoneOvertaken(d, log)
  {
    TopIsLength(d, log, s, top);
    RecoveryExactIff(d, log, s);
  }

  lemma FinishPossible(d: Disk, top: nat, s: Store) returns (st: State)
    requires forall n, n' :: n in s.live && n' in s.live && n != n' ==> s.live[n].uuid != s.live[n'].uuid
    ensures Finishes(d, top, s, st)
  {
    if HasTail(d) {
      var dirs := map n | n in s.live :: s.live[n].uuid := Dir(s.live[n].buffer, Some(LogMark(0, 0, top)));
      var entries := map n | n in s.live :: IdentityOf(s.live[n]);
      st := State(Store(s.live, dirs), Snapshot(top, entries), d.wal, top);
    } else {
      var dirs := map u | u in s.dirs && u in LiveUuids(s.live) :: s.dirs[u];
      st := State(Store(s.live, dirs), d.snapshot, d.wal, top);
    }
  }

  // ---------------------------------------------------------------- forgotten numbers

  lemma HighestIs(d: Disk, log: Log, full: Log)
    requires WalOk(d, full) && log <= full && IsHighest(d, |log|)
    ensures (forall i :: |log| <= i < |full| ==> full[i].Blank?) && Fold(full, |full|) == Fold(full, |log|) == Fold(log, |log|)
  {
    forall i | |log| <= i < |full| ensures full[i].Blank? {
      assert i + 1 in d.wal.entries || full[i].Blank?;
    }
    FoldBlank(full, |log|, |full|);
    FoldTake(full, |log|, |log|);
    assert full[..|log|] == log;
  }

  /** The shorter log of a crash is as well formed as the longer. */
  lemma ShorterLog(log: Log, full: Log)
    requires WellFormed(full) && CreatesFresh(full) && log <= full
    ensures WellFormed(log) && CreatesFresh(log)
  {
    assert full[..|log|] == log;
    forall k | 0 <= k < |log| ensures Admitted(log, k) && CreateFresh(log, k) {
      FoldTake(full, |log|, k);
      assert Admitted(full, k) && CreateFresh(full, k);
    }
  }

  lemma ShorterWal(d: Disk, log: Log, full: Log)
    requires WalOk(d, full) && IsHighest(d, |log|) && log <= full
    ensures WalOk(d, log)
  {
  }

  /** A position up to the shorter log means the same in both. */
  lemma ShorterFold(log: Log, full: Log, k: nat)
    requires log <= full && k <= |log|
    ensures Fold(full, k) == Fold(log, k)
  {
    FoldTake(full, |log|, k);
    assert full[..|log|] == log;
  }

  lemma ShorterOvertaken(d: Disk, log: Log, full: Log, n: Name, id: Id)
    requires WalOk(d, full) && log <= full && IsHighest(d, |log|)
    ensures Overtaken(d, log, n, id) <==> Overtaken(d, full, n, id)
  {
    HighestIs(d, log, full);
    if n in Fold(log, |log|) && Since(d, Fold(log, |log|)[n]) < d.snapshot.appliedSeq {
      ShorterFold(log, full, Since(d, Fold(log, |log|)[n]));
    }
  }

  lemma ShorterDir(log: Log, full: Log, n: Name, c: Coll, dir: Dir)
    requires log <= full && DirExact(dir, full, n, c) && MarkOf(dir).index <= |log|
    ensures DirExact(dir, log, n, c)
  {
    ShorterFold(log, full, MarkOf(dir).index);
  }

  lemma ShorterListing(d: Disk, log: Log, full: Log, n: Name)
    requires SoundDisk(d, full) && log <= full && IsHighest(d, |log|) && Fold(full, |full|) == Fold(log, |log|)
    requires forall i :: |log| <= i < |full| ==> full[i].Blank?
    ensures n in d.snapshot.entries && NoDrop(log, n, d.snapshot.appliedSeq, |log|) ==> ListedOk(d, log, n)
  {
    hide Fold;
    if n in d.snapshot.entries && NoDrop(log, n, d.snapshot.appliedSeq, |log|) {
      assert NoDrop(full, n, d.snapshot.appliedSeq, |full|);
      assert ListedOk(d, full, n);
    }
  }

  /** Without a commit at a forgotten number, the disk is one a crash can leave after the shorter log. */
  lemma WithinIsDown(d: Disk, log: Log, full: Log)
    requires DiskOk(d, full) && log <= full && IsHighest(d, |log|) && MarksWithin(d, log)
    ensures DownOk(d, log)
  {
    hide Fold, WellFormed, CreatesFresh, WalOk, Overtaken, DirExact, ListedOk, NoDrop;
    HighestIs(d, log, full);
    ShorterLog(log, full);
    ShorterWal(d, log, full);
    forall n ensures n in d.snapshot.entries && NoDrop(log, n, d.snapshot.appliedSeq, |log|) ==> ListedOk(d, log, n) {
      ShorterListing(d, log, full, n);
    }
    forall n | n in Fold(log, |log|) && Fold(log, |log|)[n].uuid in d.dirs
      ensures DirExact(d.dirs[Fold(log, |log|)[n].uuid], log, n, Fold(log, |log|)[n])
    {
      ShorterDir(log, full, n, Fold(log, |log|)[n], d.dirs[Fold(log, |log|)[n].uuid]);
    }
    forall n, id ensures !Overtaken(d, log, n, id) {
      ShorterOvertaken(d, log, full, n, id);
    }
  }

  /** Positions without an entry change nothing. */
  lemma {:induction false} ReplaySkips(s: Store, log: Log, lo: nat, mid: nat, hi: nat)
    requires lo <= mid <= hi <= |log| && forall i :: mid <= i < hi ==> log[i] == Blank
    ensures Replay(s, log, lo, hi) == Replay(s, log, lo, mid)
    decreases hi
  {
    if mid < hi {
      ReplaySkips(s, log, lo, mid, hi - 1);
    }
  }

  /** What is replayed of such a disk: the counter restarts at the shorter log, and nothing is lost that was not overtaken. */
  lemma FallenReplay(d: Disk, log: Log, full: Log, s: Store)
    requires SoundDisk(d, full) && log <= full && IsHighest(d, |log|) && Loads(d, s)
    ensures IsTop(d, s, |log|) && forall top: nat :: IsTop(d, s, top) ==> top == |log|
    ensures var result := Replay(s, WalLog(d.wal, |log|), d.snapshot.appliedSeq, |log|);
            && result.Ok? && Owned(result.value, log)
            && (Shows(result.value.live, Fold(log, |log|)) <==> NoneOvertaken(d, full))
  {
    LoadedTop(d, full, s, |log|);
    RecoveryExactIff(d, full, s);
    hide Loads, Overtaken, CreatesFresh, WellFormed, ListedOk, DirExact, Fold, Shows, IsTop;
    HighestIs(d, log, full);
    ShorterWal(d, log, full);
    WalReplays(d, log, s);
    WalReplays(d, full, s);
    ReplaySkips(s, full, d.snapshot.appliedSeq, |log|, |full|);
    ReplayAgrees(s, full, log, d.snapshot.appliedSeq, |log|);
    ShorterOwned(Replay(s, log, d.snapshot.appliedSeq, |log|).value, log, full);
  }

  lemma ShorterOwned(s: Store, log: Log, full: Log)
    requires Owned(s, full) && log <= full && forall i :: |log| <= i < |full| ==> full[i].Blank?
    ensures Owned(s, log)
  {
  }

  lemma LoadedTop(d: Disk, log: Log, s: Store, h: nat)
    requires SoundDisk(d, log) && IsHighest(d, h) && Loads(d, s)
    ensures IsTop(d, s, h) && forall top: nat :: IsTop(d, s, top) ==> top == h
  {
    forall n | n in s.live ensures s.live[n].createdSeq <= d.snapshot.appliedSeq {
      KeptFacts(d, log, n);
    }
  }

  /** A crash that leaves a disk which can be opened costs nothing if no document is overtaken. */
  lemma FallenIff(d: Disk, log: Log)
    requires Restartable(d, log)
    ensures d.snapshot.appliedSeq <= |log| && (FallenOk(d, log) <==> NoneOvertaken(d, log))
  {
    hide Fold, WellFormed, CreatesFresh, Overtaken, DirExact, ListedOk;
    if full :| log <= full && DiskOk(d, full) {
      forall n, id ensures !Overtaken(d, log, n, id) {
        ShorterOvertaken(d, log, full, n, id);
      }
    }
    if NoneOvertaken(d, log) {
      var full :| log <= full && SoundDisk(d, full);
      forall n, id ensures !Overtaken(d, full, n, id) {
        ShorterOvertaken(d, log, full, n, id);
      }
      assert DiskOk(d, full);
    }
  }

  /** After a crash of a running catalog only forgotten numbers matter. */
  lemma FallenHarmless(d: Disk, log: Log)
    requires FallenOk(d, log)
    ensures Restartable(d, log) && d.snapshot.appliedSeq <= |log| && NoneOvertaken(d, log) && (Safe(d, log) <==> Harmless(d, log))
  {
    hide SoundDisk, Safe, NoneOvertaken;
    var full :| log <= full && DiskOk(d, full);
    assert SoundDisk(d, full);
    FallenIff(d, log);
  }

  /** `open` succeeds on such a disk, and is exact if and only if no document is overtaken. */
  lemma RestartableOpens(d: Disk, log: Log)
    requires Restartable(d, log)
    ensures d.snapshot.appliedSeq <= |log| && exists s, st :: Opens(d, s, |log|, st)
    ensures forall s, top, st :: Opens(d, s, top, st) ==> top == |log| && (Shows(st.store.live, Fold(log, |log|)) <==> NoneOvertaken(d, log))
  {
    hide SoundDisk, Fold, Shows, NoneOvertaken, Loads, IsTop, Replay, WalLog, WellFormed, CreatesFresh, Finishes;
    var full :| log <= full && SoundDisk(d, full);
    var s := LoadPossible(d, full);
    FallenReplay(d, log, full, s);
    ShorterSound(d, log, full);
    var t := Replay(s, WalLog(d.wal, |log|), d.snapshot.appliedSeq, |log|).value;
    OwnedDistinct(t, log);
    var st := FinishPossible(d, |log|, t);
    assert Opens(d, s, |log|, st);
    forall s, top, st | Opens(d, s, top, st)
      ensures top == |log| && (Shows(st.store.live, Fold(log, |log|)) <==> NoneOvertaken(d, log))
    {
      FallenReplay(d, log, full, s);
      FinishedLive(d, top, Replay(s, WalLog(d.wal, top), d.snapshot.appliedSeq, top).value, st);
    }
  }

  lemma FinishedLive(d: Disk, top: nat, t: Store, st: State)
    requires Finishes(d, top, t, st)
    ensures st.store.live == t.live
  {
  }

  lemma ShorterSound(d: Disk, log: Log, full: Log)
    requires SoundDisk(d, full) && log <= full && IsHighest(d, |log|)
    ensures DistinctUuids(log) && (NoneOvertaken(d, log) <==> NoneOvertaken(d, full))
  {
    hide Overtaken, DirExact, ListedOk, Fold;
    ShorterLog(log, full);
    forall n, id ensures Overtaken(d, log, n, id) <==> Overtaken(d, full, n, id) {
      ShorterOvertaken(d, log, full, n, id);
    }
  }

  /** The first `open` after such a crash succeeds and is exact, whatever was committed. */
  lemma FallenOpens(d: Disk, log: Log)
    requires FallenOk(d, log)
    ensures exists s, st :: Opens(d, s, |log|, st)
    ensures forall s, top, st :: Opens(d, s, top, st) ==> top == |log| && Shows(st.store.live, Fold(log, |log|))
  {
    FallenIff(d, log);
    RestartableOpens(d, log);
  }

  /** It is also a consistent running catalog, if nothing is committed above the log or there is a tail to replay. */
  lemma FallenKeeps(d: Disk, log: Log, s: Store, top: nat, st: State)
    requires FallenOk(d, log) && Safe(d, log) && Opens(d, s, top, st)
    ensures top == |log| && StateOk(st, log)
  {
    var full :| log <= full && DiskOk(d, full);
    FallenReplay(d, log, full, s);
    if HasTail(d) {
      ShorterLog(log, full);
      ShorterWal(d, log, full);
      hide Fold, WellFormed, CreatesFresh, Loads, IsTop, Replay, HasTail, Exact, Owned, StateOk;
      CheckpointedOk(Replay(s, WalLog(d.wal, top), d.snapshot.appliedSeq, top).value, log, d.wal, st);
    } else {
      WithinIsDown(d, log, full);
      OpenKeeps(d, log, s, top, st);
    }
  }
}
