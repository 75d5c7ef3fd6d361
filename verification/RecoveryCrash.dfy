/**
 Crashes inside recovery. Replaying a create or drop rewrites `catalog.pb` at once, so a crash between
 two replayed entries leaves an applied point that may be ahead of what the directories hold. Such a
 disk can always be opened again; this module says exactly when nothing is lost.
 */
module RecoveryCrashes {
  import opened Outcome
  import opened Commands
  import opened Stores
  import opened Replays
  import opened Standalone
  import opened StandaloneRecovery

  /** Recovery of `d` from the loaded store `s` has replayed through position `j`, and stands at `t`. */
  predicate Replaying(d: Disk, log: Log, s: Store, j: nat, t: Store) {
    d.snapshot.appliedSeq <= j <= |log| && Replay(s, log, d.snapshot.appliedSeq, j) == Ok(t)
  }

  /** `p` is what `catalog.pb` holds by then: the last replayed create or drop that took effect wrote it. */
  ghost predicate PersistedThrough(d: Disk, log: Log, s: Store, j: nat, p: Snapshot)
    requires d.snapshot.appliedSeq <= j <= |log| && Replay(s, log, d.snapshot.appliedSeq, j).Ok?
    decreases j
  {
    if j == d.snapshot.appliedSeq then p == d.snapshot
    else
      var i := j - 1;
      var before, after := Replay(s, log, d.snapshot.appliedSeq, i).value, Replay(s, log, d.snapshot.appliedSeq, j).value;
      exists p0 :: PersistedThrough(d, log, s, i, p0) && PersistsTo(p0, before, j, log[i], after, p)
  }

  /** What a crash at that point leaves. */
  function CrashDisk(d: Disk, t: Store, p: Snapshot): Disk {
    Disk(t.dirs, p, d.wal)
  }

  // ---------------------------------------------------------------- what replay keeps

  /** Apart from documents, a name no drop is due for stands as the log says. */
  predicate NameOk(t: Store, log: Log, j: nat, n: Name)
    requires j <= |log|
  {
    NoDrop(log, n, j, |log|) ==>
      && (n in t.live <==> n in Fold(log, j))
      && (n in t.live ==> n in Fold(log, |log|) && IdentityOf(t.live[n]) == IdentityIn(Fold(log, |log|)[n]))
  }

  function IdentityIn(c: Coll): SnapshotEntry {
    SnapshotEntry(c.uuid, c.created, c.mapping)
  }

  /** The directory of a final instance is the one found, or a new and empty one. */
  predicate FinalDirOk(d: Disk, t: Store, log: Log, n: Name)
    requires n in Fold(log, |log|)
  {
    var u := Fold(log, |log|)[n].uuid;
    if u in d.dirs then u in t.dirs && t.dirs[u] == d.dirs[u] else u in t.dirs ==> t.dirs[u] == Dir(map[], None)
  }

  ghost predicate Midway(d: Disk, log: Log, t: Store, j: nat) {
    && j <= |log| && Owned(t, log)
    && (forall n :: n in t.live ==> t.live[n].createdSeq <= j)
    && (forall n {:trigger NameOk(t, log, j, n)} :: NameOk(t, log, j, n))
    && (forall n {:trigger FinalDirOk(d, t, log, n)} :: n in Fold(log, |log|) ==> FinalDirOk(d, t, log, n))
  }

  lemma LoadedMidway(d: Disk, log: Log, s: Store)
    requires SoundDisk(d, log) && Loads(d, s)
    ensures Midway(d, log, s, d.snapshot.appliedSeq)
  {
    var a := d.snapshot.appliedSeq;
    LoadedOwned(d, log, s);
    forall n ensures NameOk(s, log, a, n) && (n in s.live ==> s.live[n].createdSeq <= a) {
      KeptFacts(d, log, n);
      if n in Fold(log, a) && NoDrop(log, n, a, |log|) {
        FoldOwner(log, a, n);
        FoldKeeps(log, n, a, |log|);
      }
      if n in s.live {
        FoldSince(log, n, a, |log|);
      }
    }
  }

  lemma NameStep(t: Store, log: Log, j: nat, n: Name)
    requires j < |log| && Owned(t, log) && WellFormed(log) && CreatesFresh(log) && ApplyCommand(t, j + 1, log[j]).Ok?
    requires NameOk(t, log, j, n)
    ensures NameOk(ApplyCommand(t, j + 1, log[j]).value, log, j + 1, n)
  {
    var v := ApplyCommand(t, j + 1, log[j]).value;
    assert NoDrop(log, n, j, |log|) <==> NoDrop(log, n, j + 1, |log|) && log[j] != Drop(n);
    if log[j].Blank? || log[j].name != n {
      OtherUnchanged(t, log, j, n);
    } else if log[j].Create? && NoDrop(log, n, j + 1, |log|) {
      assert CreateFresh(log, j);
      FoldKeeps(log, n, j + 1, |log|);
    }
  }

  lemma FinalDirStep(d: Disk, t: Store, log: Log, j: nat, n: Name)
    requires j < |log| && Owned(t, log) && DistinctUuids(log) && ApplyCommand(t, j + 1, log[j]).Ok?
    requires forall n :: n in t.live ==> t.live[n].createdSeq <= j
    requires n in Fold(log, |log|) && FinalDirOk(d, t, log, n)
    ensures FinalDirOk(d, ApplyCommand(t, j + 1, log[j]).value, log, n)
  {
    var c := Fold(log, |log|)[n];
    FoldOwner(log, |log|, n);
    if log[j].Drop? && log[j].name in t.live && t.live[log[j].name].uuid == c.uuid {
      FinalUuid(t, log, |log|, n, log[j].name);
      FoldSince(log, n, c.created, |log|);
    }
  }

  lemma MidwayStep(d: Disk, log: Log, t: Store, j: nat, v: Store)
    requires Midway(d, log, t, j) && j < |log| && WellFormed(log) && CreatesFresh(log)
    requires ApplyCommand(t, j + 1, log[j]) == Ok(v)
    ensures Midway(d, log, v, j + 1)
  {
    var next := j + 1;
    OwnedStep(t, log, j);
    forall n ensures NameOk(v, log, next, n) {
      assert NameOk(t, log, j, n);
      NameStep(t, log, j, n);
    }
    forall n | n in Fold(log, |log|) ensures FinalDirOk(d, v, log, n) {
      assert FinalDirOk(d, t, log, n);
      FinalDirStep(d, t, log, j, n);
    }
  }

  // ---------------------------------------------------------------- what `catalog.pb` says by then

  /** `catalog.pb` is still the one found, and so are the directories; or it lists the live collections as of `q`. */
  predicate Listing(d: Disk, log: Log, t: Store, j: nat, p: Snapshot) {
    || (p == d.snapshot && t.dirs == d.dirs)
    || (d.snapshot.appliedSeq < p.appliedSeq <= j && Lists(p.entries, t.live) && forall n :: n in t.live ==> t.live[n].createdSeq <= p.appliedSeq)
  }

  lemma ListingStep(d: Disk, log: Log, t: Store, j: nat, p0: Snapshot, v: Store, p: Snapshot)
    requires j < |log| && d.snapshot.appliedSeq <= j && Listing(d, log, t, j, p0) && forall n :: n in t.live ==> t.live[n].createdSeq <= j
    requires ApplyCommand(t, j + 1, log[j]) == Ok(v) && PersistsTo(p0, t, j + 1, log[j], v, p)
    ensures Listing(d, log, v, j + 1, p)
  {
  }

  /** Everything a crash between two replayed entries finds. */
  lemma {:induction false} ReplayMidway(d: Disk, log: Log, s: Store, j: nat, t: Store, p: Snapshot)
    requires SoundDisk(d, log) && Loads(d, s) && Replaying(d, log, s, j, t) && PersistedThrough(d, log, s, j, p)
    ensures Midway(d, log, t, j) && Listing(d, log, t, j, p)
    decreases j
  {
    var a := d.snapshot.appliedSeq;
    if j == a {
      LoadedMidway(d, log, s);
    } else {
      var i := j - 1;
      var before := Replay(s, log, a, i).value;
      var p0 :| PersistedThrough(d, log, s, i, p0) && PersistsTo(p0, before, j, log[i], t, p);
      ReplayMidway(d, log, s, i, before, p0);
      MidwayStep(d, log, before, i, t);
      ListingStep(d, log, before, i, p0, t, p);
    }
  }

  // ---------------------------------------------------------------- the disk a crash leaves

  /** The position a final instance's directory stands for does not move. */
  lemma SinceStays(d: Disk, log: Log, t: Store, j: nat, p: Snapshot, n: Name)
    requires Midway(d, log, t, j) && n in Fold(log, |log|)
    ensures Since(CrashDisk(d, t, p), Fold(log, |log|)[n]) == Since(d, Fold(log, |log|)[n])
  {
    assert FinalDirOk(d, t, log, n);
  }

  /** A crash inside recovery leaves a sound disk again, so recovery can be interrupted any number of times. */
  lemma CrashIsSound(d: Disk, log: Log, t: Store, j: nat, p: Snapshot)
    requires SoundDisk(d, log) && Midway(d, log, t, j) && Listing(d, log, t, j, p)
    ensures SoundDisk(CrashDisk(d, t, p), log)
  {
    var e, q, hi := CrashDisk(d, t, p), p.appliedSeq, |log|;
    if p == d.snapshot && t.dirs == d.dirs {
      assert e == d;
    } else {
      forall n | n in p.entries && NoDrop(log, n, q, hi) ensures ListedOk(e, log, n) {
        assert NameOk(t, log, j, n);
      }
      forall n | n in Fold(log, hi) && Fold(log, hi)[n].created <= q ensures n in p.entries {
        FoldSince(log, n, j, hi);
        assert NameOk(t, log, j, n);
      }
      forall n | n in Fold(log, hi) && Fold(log, hi)[n].uuid in e.dirs
        ensures DirExact(e.dirs[Fold(log, hi)[n].uuid], log, n, Fold(log, hi)[n])
      {
        FoldOwner(log, hi, n);
        assert FinalDirOk(d, t, log, n);
      }
    }
  }

  /** What is overtaken after the crash, in terms of the disk before it. */
  lemma OvertakenAfter(d: Disk, log: Log, t: Store, j: nat, p: Snapshot)
    requires Midway(d, log, t, j) && p.appliedSeq <= |log|
    ensures NoneOvertaken(CrashDisk(d, t, p), log) <==> !exists n, id :: OvertakenAt(d, log, p.appliedSeq, n, id)
  {
    forall n, id ensures Overtaken(CrashDisk(d, t, p), log, n, id) <==> OvertakenAt(d, log, p.appliedSeq, n, id) {
      if n in Fold(log, |log|) {
        SinceStays(d, log, t, j, p, n);
      }
    }
  }

  /**
   Interrupted recovery, exactly: after a crash between any two replayed entries the next `open`
   succeeds. It shows what the durable commands define if and only if no document of a surviving
   collection was last changed after the position its directory stands for and at or below the last
   replayed create or drop that took effect.
   */
  lemma InterruptedRecoveryIff(d: Disk, log: Log, s: Store, j: nat, t: Store, p: Snapshot)
    requires SoundDisk(d, log) && IsHighest(d, |log|) && Loads(d, s) && Replaying(d, log, s, j, t) && PersistedThrough(d, log, s, j, p)
    ensures SoundDisk(CrashDisk(d, t, p), log) && IsHighest(CrashDisk(d, t, p), |log|)
    ensures exists s', st :: Opens(CrashDisk(d, t, p), s', |log|, st)
    ensures forall s', top, st {:trigger Opens(CrashDisk(d, t, p), s', top, st)} :: Opens(CrashDisk(d, t, p), s', top, st) ==>
              (Shows(st.store.live, Fold(log, |log|)) <==> !exists n, id :: OvertakenAt(d, log, p.appliedSeq, n, id))
  {
    hide SoundDisk, Loads, Replay, PersistedThrough, Opens, Shows, Fold, Overtaken, OvertakenAt, Midway, Listing, NoneOvertaken;
    var e := CrashDisk(d, t, p);
    ReplayMidway(d, log, s, j, t, p);
    CrashIsSound(d, log, t, j, p);
    assert IsHighest(e, |log|);
    OpenSucceeds(e, log);
    OvertakenAfter(d, log, t, j, p);
    forall s', top, st | Opens(e, s', top, st)
      ensures Shows(st.store.live, Fold(log, |log|)) <==> !exists n, id :: OvertakenAt(d, log, p.appliedSeq, n, id)
    {
      OpenExactIff(e, log, s', top, st);
    }
  }

  /** A document of a surviving collection, last changed between its directory's position and `q`. */
  predicate OvertakenAt(d: Disk, log: Log, q: nat, n: Name, id: Id)
    requires q <= |log|
  {
    n in Fold(log, |log|) &&
    var c := Fold(log, |log|)[n];
    c.created <= q && Since(d, c) < q && Untouched(log, n, id, q, |log|) && DocAt(log, Since(d, c), n, id) != DocAt(log, |log|, n, id)
  }

  /** The applied point of the crash disk is that of the last replayed create or drop that took effect. */
  lemma {:induction false} LastEffective(d: Disk, log: Log, s: Store, j: nat, p: Snapshot)
    requires d.snapshot.appliedSeq <= j <= |log| && Replay(s, log, d.snapshot.appliedSeq, j).Ok? && PersistedThrough(d, log, s, j, p)
    ensures var a, q := d.snapshot.appliedSeq, p.appliedSeq;
            && a <= q <= j
            && (a < q ==> Replay(s, log, a, q - 1).Ok? && Persists(Replay(s, log, a, q - 1).value, log[q - 1]))
            && (forall i :: q <= i < j ==> Replay(s, log, a, i).Ok? && !Persists(Replay(s, log, a, i).value, log[i]))
    decreases j
  {
    hide ApplyCommand, Persists, Fold;
    var a := d.snapshot.appliedSeq;
    if a < j {
      var before := Replay(s, log, a, j - 1).value;
      var p0 :| PersistedThrough(d, log, s, j - 1, p0) && PersistsTo(p0, before, j, log[j - 1], Replay(s, log, a, j).value, p);
      LastEffective(d, log, s, j - 1, p0);
    }
  }

  // ---------------------------------------------------------------- crashes inside the closing checkpoint

  /** Some collections have been committed at the top, the others not yet; orphans may have been swept. */
  predicate PartlyCommitted(top: nat, t: Store, dirs: map<Uuid, Dir>) {
    forall n :: n in t.live ==>
      var u := t.live[n].uuid;
      u in t.dirs && u in dirs && (dirs[u] == t.dirs[u] || dirs[u] == Dir(t.live[n].buffer, Some(LogMark(0, 0, top))))
  }

  /** A crash between the commits of the closing checkpoint leaves a sound disk, and no document is overtaken by it. */
  lemma CheckpointCrash(d: Disk, log: Log, top: nat, t: Store, p: Snapshot, dirs: map<Uuid, Dir>)
    requires SoundDisk(CrashDisk(d, t, p), log) && p.appliedSeq <= top <= |log| && Fold(log, top) == Fold(log, |log|)
    requires Exact(t, log, |log|) && PartlyCommitted(top, t, dirs)
    ensures SoundDisk(Disk(dirs, p, d.wal), log)
    ensures forall n, id :: Overtaken(Disk(dirs, p, d.wal), log, n, id) ==> Overtaken(CrashDisk(d, t, p), log, n, id)
  {
    var e, e' := CrashDisk(d, t, p), Disk(dirs, p, d.wal);
    forall n | n in Fold(log, |log|) ensures DirMoved(e, log, top, e', n) {
      ExactName(t, log, n);
    }
    DirsMoved(e, log, top, e');
  }

  // ---------------------------------------------------------------- crashes anywhere inside `open`

  /** A crash inside `open`: replay stands at position `j`, or it is done and the closing checkpoint has committed some collections. */
  ghost predicate CrashesInOpen(d: Disk, log: Log, s: Store, j: nat, t: Store, e: Disk) {
    && Loads(d, s) && Replaying(d, log, s, j, t) && PersistedThrough(d, log, s, j, e.snapshot) && e.wal == d.wal
    && (e.dirs == t.dirs || (j == |log| && HasTail(d) && PartlyCommitted(|log|, t, e.dirs)))
  }

  /** The replayed part is the same in a longer log. */
  lemma {:induction false} LongerReplaying(d: Disk, log: Log, full: Log, s: Store, j: nat, t: Store, p: Snapshot)
    requires log <= full && Replaying(d, log, s, j, t) && PersistedThrough(d, log, s, j, p)
    ensures Replaying(d, full, s, j, t) && PersistedThrough(d, full, s, j, p)
    decreases j
  {
    var a := d.snapshot.appliedSeq;
    ReplayAgrees(s, log, full, a, j);
    if a < j {
      var before := Replay(s, log, a, j - 1).value;
      var p0 :| PersistedThrough(d, log, s, j - 1, p0) && PersistsTo(p0, before, j, log[j - 1], t, p);
      LongerReplaying(d, log, full, s, j - 1, before, p0);
    }
  }

  /** A completed replay of a disk on which nothing is overtaken shows the whole log. */
  lemma ReplayedExact(d: Disk, log: Log, full: Log, s: Store, t: Store)
    requires DiskOk(d, full) && log <= full && IsHighest(d, |log|) && Loads(d, s) && Replaying(d, log, s, |log|, t)
    ensures Fold(full, |log|) == Fold(full, |full|) && Exact(t, full, |full|)
  {
    FallenReplay(d, log, full, s);
    HighestIs(d, log, full);
    ShorterWal(d, log, full);
    WalReplays(d, log, s);
  }

  /** A crash anywhere inside `open` leaves a disk that can be opened again. */
  lemma CrashInOpenKeeps(d: Disk, log: Log, s: Store, j: nat, t: Store, e: Disk)
    requires FallenOk(d, log) && CrashesInOpen(d, log, s, j, t, e)
    ensures Restartable(e, log) && e.snapshot.appliedSeq <= |log|
  {
    hide Fold, SoundDisk, Replay, PersistedThrough, Loads, NoneOvertaken, PartlyCommitted, Midway, Listing, HasTail;
    var full :| log <= full && DiskOk(d, full);
    var p := e.snapshot;
    LongerReplaying(d, log, full, s, j, t, p);
    ReplayMidway(d, full, s, j, t, p);
    CrashIsSound(d, full, t, j, p);
    ListingWithin(d, full, t, j, p);
    if e.dirs != t.dirs {
      ReplayedExact(d, log, full, s, t);
      CheckpointCrash(d, full, |log|, t, p, e.dirs);
    }
    assert e == Disk(e.dirs, p, d.wal) && SoundDisk(e, full);
  }

  lemma ListingWithin(d: Disk, log: Log, t: Store, j: nat, p: Snapshot)
    requires Listing(d, log, t, j, p) && d.snapshot.appliedSeq <= j
    ensures d.snapshot.appliedSeq <= p.appliedSeq <= j
  {
  }
}
