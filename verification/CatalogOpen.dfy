/**
 Opening a catalog: load what `catalog.pb` lists and the log's tail has not dropped, replay that
 tail, sweep orphaned directories, and checkpoint if anything was replayed.
 */
module CatalogRecovery {
  import opened Outcome
  import opened Commands
  import opened Stores
  import Replays
  import opened Standalone
  import opened StandaloneRecovery
  import R = StandaloneRuns
  import opened Catalogs
  import opened Wals
  import Frames
  import Segments
  import LogIndex
  import LogDisk
  import SegmentedLogs
  import LogRecovery

  // ---------------------------------------------------------------- reading the tail

  /** The collections dropped by an entry above `applied`. */
  method DroppedInTailOf(entries: seq<WalEntry>, applied: nat) returns (dropped: set<Name>)
    ensures forall n :: n in dropped <==> exists i :: 0 <= i < |entries| && applied < entries[i].seqNo && entries[i].command == Drop(n)
  {
    dropped := {};
    for j := 0 to |entries|
      invariant forall n :: n in dropped <==> exists i :: 0 <= i < j && applied < entries[i].seqNo && entries[i].command == Drop(n)
    {
      if applied < entries[j].seqNo && entries[j].command.Drop? {
        dropped := dropped + {entries[j].command.name};
      }
    }
  }

  lemma DroppedIff(d: Disk, entries: seq<WalEntry>, n: Name)
    requires InOrder(entries, d.wal)
    ensures DroppedInTail(d, n) <==>
              exists i :: 0 <= i < |entries| && d.snapshot.appliedSeq < entries[i].seqNo && entries[i].command == Drop(n)
  {
    if DroppedInTail(d, n) {
      var k :| k in d.wal.entries && d.snapshot.appliedSeq < k && d.wal.entries[k] == Drop(n);
      assert WalEntry(k, d.wal.entries[k]) in entries;
      var i :| 0 <= i < |entries| && entries[i] == WalEntry(k, Drop(n));
    }
    if i :| 0 <= i < |entries| && d.snapshot.appliedSeq < entries[i].seqNo && entries[i].command == Drop(n) {
      assert entries[i].seqNo in d.wal.entries;
    }
  }

  /** Opens the listed collections that are not dropped; fails if one of them has no directory. */
  method LoadEntries(listed: map<Name, SnapshotEntry>, dirs: map<Uuid, Dir>, dropped: set<Name>) returns (live: Option<map<Name, Entry>>)
    ensures live.Some? <==> forall n :: n in listed && n !in dropped ==> listed[n].uuid in dirs
    ensures live.Some? ==>
              && live.value.Keys == listed.Keys - dropped
              && forall n :: n in live.value ==> listed[n].uuid in dirs && live.value[n] == OpenEntry(listed[n], dirs)
  {
    var rest, loaded := listed.Keys - dropped, map[];
    while rest != {}
      invariant rest <= listed.Keys - dropped && loaded.Keys == listed.Keys - dropped - rest
      invariant forall n :: n in loaded ==> n in listed && listed[n].uuid in dirs && loaded[n] == OpenEntry(listed[n], dirs)
      decreases rest
    {
      var n := Pick(rest);
      if listed[n].uuid !in dirs {
        return None;
      }
      loaded := loaded[n := OpenEntry(listed[n], dirs)];
      rest := rest - {n};
    }
    live := Some(loaded);
  }

  /** The largest sequence number mentioned anywhere. */
  method TopSeq(entries: seq<WalEntry>, applied: nat, live: map<Name, Entry>) returns (top: nat)
    ensures applied <= top && (forall i :: 0 <= i < |entries| ==> entries[i].seqNo <= top)
    ensures forall n :: n in live ==> live[n].createdSeq <= top
    ensures top == applied || (exists i :: 0 <= i < |entries| && entries[i].seqNo == top) || (exists n :: n in live && live[n].createdSeq == top)
  {
    top := applied;
    for j := 0 to |entries|
      invariant applied <= top && (forall i :: 0 <= i < j ==> entries[i].seqNo <= top)
      invariant top == applied || (exists i :: 0 <= i < j && entries[i].seqNo == top)
    {
      top := Max(top, entries[j].seqNo);
    }
    var rest := live.Keys;
    while rest != {}
      invariant rest <= live.Keys && applied <= top && (forall i :: 0 <= i < |entries| ==> entries[i].seqNo <= top)
      invariant forall n :: n in live && n !in rest ==> live[n].createdSeq <= top
      invariant top == applied || (exists i :: 0 <= i < |entries| && entries[i].seqNo == top) || (exists n :: n in live && live[n].createdSeq == top)
      decreases rest
    {
      var n := Pick(rest);
      top := Max(top, live[n].createdSeq);
      rest := rest - {n};
    }
  }

  lemma TopIs(d: Disk, entries: seq<WalEntry>, s: Store, top: nat)
    requires InOrder(entries, d.wal)
    requires d.snapshot.appliedSeq <= top && (forall i :: 0 <= i < |entries| ==> entries[i].seqNo <= top)
    requires forall n :: n in s.live ==> s.live[n].createdSeq <= top
    requires top == d.snapshot.appliedSeq || (exists i :: 0 <= i < |entries| && entries[i].seqNo == top) || (exists n :: n in s.live && s.live[n].createdSeq == top)
    ensures IsTop(d, s, top)
  {
    forall k | k in d.wal.entries ensures k <= top {
      assert WalEntry(k, d.wal.entries[k]) in entries;
    }
    if i :| 0 <= i < |entries| && entries[i].seqNo == top {
      assert top in d.wal.entries;
    }
  }

  // ---------------------------------------------------------------- replaying the tail

  /** An error ends a replay. */
  lemma {:induction false} ReplayStops(s: Store, log: Log, lo: nat, mid: nat, hi: nat)
    requires lo <= mid <= hi <= |log| && Replay(s, log, lo, mid).Fail?
    ensures Replay(s, log, lo, hi) == Replay(s, log, lo, mid)
    decreases hi
  {
    if mid < hi {
      ReplayStops(s, log, lo, mid, hi - 1);
    }
  }

  /** Where the replay stands before entry `i`. */
  ghost function Reached(entries: seq<WalEntry>, applied: nat, i: nat): nat
    requires i <= |entries|
  {
    if i == 0 then applied else Max(applied, entries[i - 1].seqNo)
  }

  /** Entry `i`, above the applied point, is the next command of the log; only blanks come before it. */
  lemma NextEntry(d: Disk, entries: seq<WalEntry>, s: Store, top: nat, i: nat)
    requires InOrder(entries, d.wal) && i < |entries| && (forall j :: 0 <= j < |entries| ==> entries[j].seqNo <= top)
    requires d.snapshot.appliedSeq < entries[i].seqNo
    ensures var log, a, k := WalLog(d.wal, top), d.snapshot.appliedSeq, entries[i].seqNo;
            && a <= Reached(entries, a, i) < k <= |log| && log[k - 1] == entries[i].command
            && Reached(entries, a, i + 1) == k
            && Replay(s, log, a, k - 1) == Replay(s, log, a, Reached(entries, a, i))
  {
    var log, a, k := WalLog(d.wal, top), d.snapshot.appliedSeq, entries[i].seqNo;
    assert k in d.wal.entries;
    forall j | Reached(entries, a, i) <= j < k - 1 ensures log[j] == Blank {
      Between(d.wal, entries, i, j + 1);
    }
    ReplaySkips(s, log, a, Reached(entries, a, i), k - 1);
  }

  /** No index lies strictly between two consecutive entries. */
  lemma Between(w: WalImage, entries: seq<WalEntry>, i: nat, k: nat)
    requires InOrder(entries, w) && i <= |entries|
    requires i > 0 ==> entries[i - 1].seqNo < k
    requires i < |entries| ==> k < entries[i].seqNo
    ensures k !in w.entries
  {
    EachListed(w, entries);
    assert forall j :: 0 <= j < |entries| ==> entries[j].seqNo != k;
  }

  lemma EachListed(w: WalImage, entries: seq<WalEntry>)
    requires InOrder(entries, w)
    ensures forall k :: k in w.entries ==> exists j :: 0 <= j < |entries| && entries[j].seqNo == k
  {
    forall k | k in w.entries ensures exists j :: 0 <= j < |entries| && entries[j].seqNo == k {
      assert WalEntry(k, w.entries[k]) in entries;
      var j :| 0 <= j < |entries| && entries[j] == WalEntry(k, w.entries[k]);
    }
  }

  /** After the last entry only blanks remain. */
  lemma TailEnds(d: Disk, entries: seq<WalEntry>, s: Store, top: nat)
    requires InOrder(entries, d.wal) && d.snapshot.appliedSeq <= top && (forall j :: 0 <= j < |entries| ==> entries[j].seqNo <= top)
    ensures var log, a := WalLog(d.wal, top), d.snapshot.appliedSeq;
            var end := Reached(entries, a, |entries|);
            a <= end <= top && Replay(s, log, a, top) == Replay(s, log, a, end)
  {
    var log, a := WalLog(d.wal, top), d.snapshot.appliedSeq;
    var end := Reached(entries, a, |entries|);
    forall j | end <= j < top ensures log[j] == Blank {
      Between(d.wal, entries, |entries|, j + 1);
    }
    ReplaySkips(s, log, a, end, top);
  }

  /** Replays the entries above the applied point, in order, until one fails. */
  method ReplayTail(catalog: Catalog, entries: seq<WalEntry>, applied: nat, ghost d: Disk, ghost s: Store, ghost top: nat)
    returns (err: Option<StoreError>, replayed: bool)
    requires InOrder(entries, d.wal) && applied == d.snapshot.appliedSeq <= top && (forall j :: 0 <= j < |entries| ==> entries[j].seqNo <= top)
    requires s == Store(catalog.live, catalog.dirs)
    modifies catalog`live, catalog`dirs, catalog`snapshot, catalog`history
    ensures err.None? <==> Replay(s, WalLog(d.wal, top), applied, top).Ok?
    ensures err.None? ==>
              && Replay(s, WalLog(d.wal, top), applied, top) == Ok(Store(catalog.live, catalog.dirs))
              && replayed == HasTail(d)
              && (!replayed ==> catalog.snapshot == old(catalog.snapshot) && catalog.dirs == old(catalog.dirs) && catalog.live == old(catalog.live))
  {
    hide InOrder, WalLog, Replay, ApplyCommand, HasTail;
    err, replayed := None, false;
    ReplayNothing(s, WalLog(d.wal, top), applied);
    for i := 0 to |entries|
      invariant err.None? && applied <= Reached(entries, applied, i) <= |WalLog(d.wal, top)|
      invariant Replay(s, WalLog(d.wal, top), applied, Reached(entries, applied, i)) == Ok(Store(catalog.live, catalog.dirs))
      invariant replayed <==> exists j :: 0 <= j < i && applied < entries[j].seqNo
      invariant !replayed ==> catalog.snapshot == old(catalog.snapshot) && catalog.dirs == old(catalog.dirs) && catalog.live == old(catalog.live)
    {
      if applied < entries[i].seqNo {
        ghost var k := entries[i].seqNo;
        NextEntry(d, entries, s, top, i);
        ReplayOne(s, WalLog(d.wal, top), applied, k, Store(catalog.live, catalog.dirs));
        err := catalog.Apply(entries[i].seqNo, entries[i].command);
        replayed := true;
        if err.Some? {
          ReplayStops(s, WalLog(d.wal, top), applied, k, top);
          return;
        }
      } else {
        SkippedEntry(entries, d.wal, applied, i);
      }
    }
    TailEnds(d, entries, s, top);
    TailIff(d, entries);
  }

  lemma ReplayNothing(s: Store, log: Log, lo: nat)
    requires lo <= |log|
    ensures Replay(s, log, lo, lo) == Ok(s)
  {
  }

  lemma ReplayOne(s: Store, log: Log, lo: nat, k: nat, t: Store)
    requires lo < k <= |log| && Replay(s, log, lo, k - 1) == Ok(t)
    ensures Replay(s, log, lo, k) == ApplyCommand(t, k, log[k - 1])
  {
  }

  /** An entry at or below the applied point does not move the replay. */
  lemma SkippedEntry(entries: seq<WalEntry>, w: WalImage, applied: nat, i: nat)
    requires InOrder(entries, w) && i < |entries| && entries[i].seqNo <= applied
    ensures Reached(entries, applied, i + 1) == Reached(entries, applied, i)
  {
    if i > 0 {
      assert entries[i - 1].seqNo < entries[i].seqNo;
    }
  }

  lemma TailIff(d: Disk, entries: seq<WalEntry>)
    requires InOrder(entries, d.wal)
    ensures HasTail(d) <==> exists j :: 0 <= j < |entries| && d.snapshot.appliedSeq < entries[j].seqNo
  {
    if HasTail(d) {
      var k :| k in d.wal.entries && d.snapshot.appliedSeq < k;
      assert WalEntry(k, d.wal.entries[k]) in entries;
      var j :| 0 <= j < |entries| && entries[j] == WalEntry(k, d.wal.entries[k]);
    }
    if j :| 0 <= j < |entries| && d.snapshot.appliedSeq < entries[j].seqNo {
      assert entries[j].seqNo in d.wal.entries;
    }
  }

  /** Loading succeeds on every disk a crash can leave, and loads what it should. */
  lemma LoadIff(d: Disk, log: Log, entries: seq<WalEntry>, dropped: set<Name>, live: Option<map<Name, Entry>>)
    requires InOrder(entries, d.wal)
    requires forall n :: n in dropped <==> exists i :: 0 <= i < |entries| && d.snapshot.appliedSeq < entries[i].seqNo && entries[i].command == Drop(n)
    requires live.Some? <==> forall n :: n in d.snapshot.entries && n !in dropped ==> d.snapshot.entries[n].uuid in d.dirs
    requires live.Some? ==>
               && live.value.Keys == d.snapshot.entries.Keys - dropped
               && forall n :: n in live.value ==> d.snapshot.entries[n].uuid in d.dirs && live.value[n] == OpenEntry(d.snapshot.entries[n], d.dirs)
    ensures live.Some? ==> Loads(d, Store(live.value, d.dirs))
    ensures Restartable(d, log) ==> live.Some?
  {
    hide InOrder, SoundDisk, DroppedInTail;
    forall n ensures n in dropped <==> DroppedInTail(d, n) {
      DroppedIff(d, entries, n);
    }
    if Restartable(d, log) {
      var full :| log <= full && SoundDisk(d, full);
      forall n | n in d.snapshot.entries && n !in dropped ensures d.snapshot.entries[n].uuid in d.dirs {
        var s := LoadPossible(d, full);
        assert Kept(d, n);
      }
    }
  }

  /** The top is the length of the log, and replay succeeds, with distinct uuids. */
  lemma RecoveredStore(d: Disk, log: Log, s: Store, top: nat)
    requires Restartable(d, log)
    requires Loads(d, s) && IsTop(d, s, top)
    ensures top == |log|
    ensures var result := Replay(s, WalLog(d.wal, top), d.snapshot.appliedSeq, top);
            result.Ok? && OwnUuids(result.value.live)
  {
    hide Loads, IsTop, Replay, WalLog, CreatesFresh, Overtaken, ListedOk, Admitted;
    var full :| log <= full && SoundDisk(d, full);
    FallenReplay(d, log, full, s);
    ShorterLog(log, full);
    OwnedDistinct(Replay(s, WalLog(d.wal, top), d.snapshot.appliedSeq, top).value, log);
  }

  /** `st` is how `open` ends after replay produced `t` and a sweep left the directories `swept`. */
  ghost predicate Ends(d: Disk, t: Store, swept: map<Uuid, Dir>, top: nat, st: State) {
    && Sweeps(t, Store(t.live, swept)) && st.seqNo == top && st.store.live == t.live
    && if HasTail(d) then
         && Catalogs.Committed(t.live, swept, t.live.Keys, LogMark(0, 0, top), st.store.dirs)
         && st.snapshot.appliedSeq == top && Lists(st.snapshot.entries, t.live) && Trims(d.wal, st.wal, top)
       else st.store.dirs == swept && st.snapshot == d.snapshot && st.wal == d.wal
  }

  /** The end of `open` is the one the recovery theorems speak of. */
  lemma EndsOpens(d: Disk, s: Store, top: nat, t: Store, swept: map<Uuid, Dir>, st: State)
    requires Loads(d, s) && IsTop(d, s, top) && OwnUuids(t.live)
    requires Replay(s, WalLog(d.wal, top), d.snapshot.appliedSeq, top) == Ok(t) && Ends(d, t, swept, top, st)
    ensures Opens(d, s, top, st)
  {
    hide Loads, IsTop, Replay, WalLog, HasTail, Trims, Lists;
    if HasTail(d) {
      hide Catalogs.Committed, CommitsAll;
      CommittedAll(t.live, swept, LogMark(0, 0, top), st.store.dirs);
      CommitsFrom(Store(t.live, swept), t, st.store, LogMark(0, 0, top));
    }
    assert Finishes(d, top, t, st);
  }

  /** What the recovery theorems say of it. */
  lemma OpenedOk(d: Disk, log: Log, s: Store, top: nat, st: State)
    requires Restartable(d, log) && Opens(d, s, top, st)
    ensures d.snapshot.appliedSeq <= |log| && (Shows(st.store.live, Fold(log, |log|)) <==> NoneOvertaken(d, log))
    ensures Harmless(d, log) ==> StateOk(st, log)
  {
    hide Opens, NoneOvertaken, StateOk, Shows, FallenOk, Safe, Restartable;
    RestartableOpens(d, log);
    FallenIff(d, log);
    if Harmless(d, log) {
      FallenKeeps(d, log, s, top, st);
    }
  }

  lemma CommitsFrom(s: Store, s': Store, t: Store, mark: LogMark)
    requires s.live == s'.live && CommitsAll(s, Store(s.live, t.dirs), mark) && t.live == s.live
    ensures CommitsAll(s', t, mark)
  {
  }

  // ---------------------------------------------------------------- the whole of it

  /**
   What was replayed is searchable and on disk: every live collection's directory holds its documents
   at the mark `top`, and there is no other; `catalog.pb` lists the collections as of `top`; and the log
   is trimmed through it.
   */
  ghost predicate Settled(c: Catalog, top: nat)
    reads c, c.wal, c.wal.log
  {
    && (forall u :: u in c.dirs <==> exists n :: n in c.live && c.live[n].uuid == u)
    && (forall n :: n in c.live ==> c.live[n].uuid in c.dirs && c.dirs[c.live[n].uuid] == Dir(c.live[n].buffer, Some(LogMark(0, 0, top))))
    && c.snapshot.appliedSeq == top && Lists(c.snapshot.entries, c.live)
    && (forall k :: k in c.wal.log.records ==> top < k) && SegmentedLogs.Superseded(c.wal.log.starts, top) == {}
  }

  /** Directories, `catalog.pb` and log are as they were found, but for directories no live collection owns. */
  ghost predicate AsFound(c: Catalog, dirs: map<Uuid, Dir>, snapshot: Snapshot, w: WalImage)
    reads c, c.wal
  {
    && (forall u :: u in c.dirs <==> u in dirs && exists n :: n in c.live && c.live[n].uuid == u)
    && (forall u :: u in c.dirs ==> c.dirs[u] == dirs[u])
    && c.snapshot == snapshot && c.wal.image == w
  }

  lemma SettledIs(live: map<Name, Entry>, dirs: map<Uuid, Dir>, swept: map<Uuid, Dir>, found: map<Uuid, Dir>, mark: LogMark)
    requires Catalogs.Committed(live, swept, live.Keys, mark, dirs) && OwnUuids(live) && Sweeps(Store(live, found), Store(live, swept))
    ensures forall u :: u in dirs <==> exists n :: n in live && live[n].uuid == u
    ensures forall n :: n in live ==> live[n].uuid in dirs && dirs[live[n].uuid] == Dir(live[n].buffer, Some(mark))
  {
    forall u | u in dirs ensures exists n :: n in live && live[n].uuid == u {
      assert u in swept ==> u in LiveUuids(live);
    }
  }

  lemma FoundIs(live: map<Name, Entry>, dirs: map<Uuid, Dir>, found: map<Uuid, Dir>)
    requires Sweeps(Store(live, found), Store(live, dirs))
    ensures forall u :: u in dirs <==> u in found && exists n :: n in live && live[n].uuid == u
    ensures forall u :: u in dirs ==> dirs[u] == found[u]
  {
    assert forall u :: u in LiveUuids(live) <==> exists n :: n in live && live[n].uuid == u;
  }

  lemma AllAbove(records: map<nat, LogIndex.RecordLoc>, top: nat)
    ensures forall k :: k in LogIndex.Above(records, top) ==> top < k
  {
  }

  /**
   Opens a catalog from its directories, its `catalog.pb` and its log. On every disk a crash can leave
   after the durable commands `log`, a crash inside an earlier `open` among them, it succeeds, and
   shows exactly what `log` defines if and only if no document was overtaken. If anything was replayed
   it is committed and the log trimmed, else the disk is as found. The catalog is then consistent for
   the next write too, unless a collection was committed at a forgotten number and there was nothing
   to replay.
   */
  method Open(wal: Wal, entries: seq<WalEntry>, dirs: map<Uuid, Dir>, snapshot: Snapshot, ghost log: Log)
    returns (r: Result<Catalog, CatalogError>)
    requires wal.Valid() && wal.Durable() && InOrder(entries, wal.image)
    modifies wal, wal.log
    ensures r.Ok? ==> r.value.wal == wal && fresh(r.value) && r.value.Valid()
    ensures var d := Disk(dirs, snapshot, old(wal.image));
            Restartable(d, log) ==>
              && r.Ok? && snapshot.appliedSeq <= |log| && (Shows(r.value.live, Fold(log, |log|)) <==> NoneOvertaken(d, log))
              && (Harmless(d, log) ==> StateOk(r.value.Now(), log))
              && (HasTail(d) ==> Settled(r.value, |log|) && wal.log.files == old(wal.log.files) - SegmentedLogs.Superseded(old(wal.log.starts), |log|))
              && (!HasTail(d) ==> AsFound(r.value, dirs, snapshot, old(wal.image)) && wal.log.files == old(wal.log.files) && wal.log.records == old(wal.log.records))
  {
    hide Settled, AsFound, SegmentedLogs.Superseded, LogIndex.Above, SegmentedLogs.OneByOne, CommitsThenPersists, SweepsThrough, RecoversWith, Keeps, Trims;
    hide Wal.Valid, Wal.Durable, InOrder, DiskOk, SoundDisk, IsHighest, Overtaken, Shows, StateOk, Loads, Replay, WalLog, HasTail, IsTop, CommitsAll, Sweeps,
         Catalogs.Committed, Lists, OwnUuids, Restartable, Harmless, NoneOvertaken, Ends, AllBelow;
    ghost var d := Disk(dirs, snapshot, wal.image);
    var applied := snapshot.appliedSeq;
    var dropped := DroppedInTailOf(entries, applied);
    var live := LoadEntries(snapshot.entries, dirs, dropped);
    LoadIff(d, log, entries, dropped, live);
    if live.None? {
      return Fail(ApplyFailed(NoDataDir));
    }
    ghost var s := Store(live.value, dirs);
    var top := TopSeq(entries, applied, live.value);
    TopIs(d, entries, s, top);
    TopAbove(d, s, top);
    if Restartable(d, log) {
      RecoveredStore(d, log, s, top);
    }
    var catalog := new Catalog(wal, live.value, dirs, snapshot, top);
    var err, replayed := ReplayTail(catalog, entries, applied, d, s, top);
    if err.Some? {
      return Fail(ApplyFailed(err.value));
    }
    ghost var t := Store(catalog.live, catalog.dirs);
    catalog.SweepOrphans();
    ghost var swept := catalog.dirs;
    if replayed {
      catalog.Checkpoint(log);
    }
    if Restartable(d, log) {
      EndsAre(d, t, swept, top, catalog.Now());
      EndsOpens(d, s, top, t, swept, catalog.Now());
      OpenedOk(d, log, s, top, catalog.Now());
      if replayed {
        SettledIs(catalog.live, catalog.dirs, swept, t.dirs, LogMark(0, 0, top));
        AllAbove(old(wal.log.records), top);
        ItIsSettled(catalog, top);
      } else {
        FoundIs(catalog.live, catalog.dirs, t.dirs);
        ItIsAsFound(catalog, dirs, snapshot, old(wal.image));
      }
    }
    r := Ok(catalog);
  }

  lemma ItIsSettled(c: Catalog, top: nat)
    requires forall u :: u in c.dirs <==> exists n :: n in c.live && c.live[n].uuid == u
    requires forall n :: n in c.live ==> c.live[n].uuid in c.dirs && c.dirs[c.live[n].uuid] == Dir(c.live[n].buffer, Some(LogMark(0, 0, top)))
    requires c.snapshot.appliedSeq == top && Lists(c.snapshot.entries, c.live)
    requires (forall k :: k in c.wal.log.records ==> top < k) && SegmentedLogs.Superseded(c.wal.log.starts, top) == {}
    ensures Settled(c, top)
  {
  }

  lemma ItIsAsFound(c: Catalog, dirs: map<Uuid, Dir>, snapshot: Snapshot, w: WalImage)
    requires forall u :: u in c.dirs <==> u in dirs && exists n :: n in c.live && c.live[n].uuid == u
    requires (forall u :: u in c.dirs ==> c.dirs[u] == dirs[u]) && c.snapshot == snapshot && c.wal.image == w
    ensures AsFound(c, dirs, snapshot, w)
  {
  }

  lemma TopAbove(d: Disk, s: Store, top: nat)
    requires IsTop(d, s, top)
    ensures AllBelow(d.wal, top + 1)
  {
  }

  lemma EndsAre(d: Disk, t: Store, swept: map<Uuid, Dir>, top: nat, st: State)
    requires Sweeps(t, Store(t.live, swept)) && st.seqNo == top && st.store.live == t.live
    requires if HasTail(d) then
               && Catalogs.Committed(t.live, swept, t.live.Keys, LogMark(0, 0, top), st.store.dirs)
               && st.snapshot.appliedSeq == top && Lists(st.snapshot.entries, t.live) && Trims(d.wal, st.wal, top)
             else st.store.dirs == swept && st.snapshot == d.snapshot && st.wal == d.wal
    ensures Ends(d, t, swept, top, st)
  {
  }

  // ---------------------------------------------------------------- from bytes to bytes

  /** The highest number a disk mentions. */
  lemma HighestOf(d: Disk, log: Log) returns (top: nat)
    requires DiskOk(d, log)
    ensures IsHighest(d, top) && top <= |log|
  {
    top := |log|;
    while d.snapshot.appliedSeq < top && top !in d.wal.entries
      invariant d.snapshot.appliedSeq <= top <= |log| && forall i :: i in d.wal.entries ==> i <= top
    {
      top := top - 1;
    }
  }

  /** A disk that holds what a running catalog's did is one a crash can leave, for the commands up to the highest number it mentions. */
  lemma FallenDisk(st: State, log: Log, d: Disk) returns (top: nat)
    requires StateOk(st, log) && d.dirs == st.store.dirs && d.snapshot == st.snapshot && d.wal.entries == st.wal.entries
    ensures top <= |log| && IsHighest(d, top) && FallenOk(d, log[..top]) && Fold(log[..top], top) == Fold(log, |log|)
    ensures IsHighest(DiskOf(st), |log|) ==> log[..top] == log && Safe(d, log)
  {
    top := HighestOf(DiskOf(st), log);
    hide Fold, WellFormed, CreatesFresh, MarksWithin, SoundDisk, NoneOvertaken, Replays.Exact, Replays.Owned, DirsMatchLive;
    R.FallOk(st, log, d, R.Run(R.Down(d), log[..top]));
    HighestIs(DiskOf(st), log[..top], log);
    if IsHighest(DiskOf(st), |log|) {
      assert top == |log| && log[..top] == log;
      MarksIn(st, log, d);
    }
  }

  lemma MarksIn(st: State, log: Log, d: Disk)
    requires StateOk(st, log) && d.dirs == st.store.dirs
    ensures MarksWithin(d, log)
  {
    forall n | n in Fold(log, |log|) && Fold(log, |log|)[n].uuid in d.dirs ensures MarkOf(d.dirs[Fold(log, |log|)[n].uuid]).index <= |log| {
      ExactName(st.store, log, n);
      R.MarksBehind(st, log, n);
    }
  }

  /**
   Whatever a crash leaves of a running catalog's log files, with its directories and `catalog.pb`,
   opening them again gives a catalog that shows exactly the same durable commands. Numbers used up
   since the last of them are forgotten, which costs nothing unless a collection was committed at one
   and there is nothing to replay.
   */
  method Restart(catalog: Catalog, left: map<nat, Frames.Bytes>, ghost log: Log) returns (r: Result<Catalog, CatalogError>, ghost top: nat)
    requires catalog.Valid() && StateOk(catalog.Now(), log)
    requires LogRecovery.Crashed(catalog.wal.log.files, catalog.wal.log.durable, left)
    ensures top <= |log| && IsHighest(DiskOf(catalog.Now()), top)
    ensures r.Ok? && fresh(r.value) && r.value.Valid() && Shows(r.value.live, Fold(log, |log|))
    ensures Safe(DiskOf(catalog.Now()), log[..top]) ==> StateOk(r.value.Now(), log[..top])
    ensures IsHighest(DiskOf(catalog.Now()), |log|) ==> StateOk(r.value.Now(), log)
    ensures HasTail(DiskOf(catalog.Now())) ==> Settled(r.value, top)
    ensures !HasTail(DiskOf(catalog.Now())) ==> AsFound(r.value, catalog.dirs, catalog.snapshot, catalog.wal.image)
  {
    hide Settled, AsFound, SegmentedLogs.Superseded, HasTail;
    hide SegmentedLogs.Recoverable, SegmentedLogs.ReadBack, LogDisk.DiskOk, LogIndex.IndexOk, ImageOf, InOrder, StateOk, Wal.Durable, Segments.StartsOf,
         SegmentedLogs.ActiveOf, SegmentedLogs.Listed, SegmentedLogs.Filed, DiskOk, SoundDisk, IsHighest, NoneOvertaken, Shows, FallenOk, Restartable, Safe, Keyed;
    var wal := catalog.wal;
    WalLeft(wal, left);
    ghost var st := catalog.Now();
    top := FallenDisk(st, log, DiskOf(st));
    FallenHarmless(DiskOf(st), log[..top]);
    var again, entries := Wals.Open(wal.codec, wal.log.crc, wal.log.maxBytes, left, wal.log.segs, wal.image);
    r := Open(again, entries, catalog.dirs, catalog.snapshot, log[..top]);
  }

  lemma WalLeft(wal: Wal, left: map<nat, Frames.Bytes>)
    requires wal.Valid() && wal.Durable() && LogRecovery.Crashed(wal.log.files, wal.log.durable, left)
    ensures left == wal.log.files && SegmentedLogs.Recoverable(wal.log.crc, wal.log.segs, left)
    ensures SegmentedLogs.ReadBack(wal.log.crc, wal.log.segs, left) == wal.log.segs
  {
    hide ImageOf, Keyed, SegmentedLogs.Listed, SegmentedLogs.Filed, Segments.Ordered, Segments.Stored, LogDisk.Synced, SegmentedLogs.ReadBack, SegmentedLogs.Recoverable;
    AllLeft(wal.log.files, wal.log.durable, left);
    LogRecovery.StoredReadBack(wal.log.crc, wal.log.segs, wal.log.files);
  }

  /**
   A crash at any byte inside `LogNext`, between taking the number and the end of the sync, gaps
   before it or not: the catalog that comes back shows the commands before, or with this one, if and
   only if every byte of its frame is left.
   */
  method RestartInsideLog(catalog: Catalog, cmd: Command, left: map<nat, Frames.Bytes>, ghost st: State, ghost rotates: bool, ghost log: Log)
    returns (r: Result<Catalog, CatalogError>, ghost top: nat)
    requires catalog.MidLog(st, cmd, rotates) && StateOk(st, log) && R.CanWrite(st, log, cmd)
    requires LogRecovery.Crashed(catalog.wal.log.files, catalog.wal.log.durable, left)
    ensures r.Ok? && fresh(r.value) && r.value.Valid()
    ensures left == catalog.wal.log.files ==> StateOk(r.value.Now(), log + [cmd])
    ensures left != catalog.wal.log.files ==>
              && top <= |log| && IsHighest(R.TornDisk(st, rotates), top) && Shows(r.value.live, Fold(log, |log|))
              && (Safe(R.TornDisk(st, rotates), log[..top]) ==> StateOk(r.value.Now(), log[..top]))
              && (IsHighest(DiskOf(st), |log|) ==> StateOk(r.value.Now(), log))
              && (HasTail(R.TornDisk(st, rotates)) ==> Settled(r.value, top))
              && (!HasTail(R.TornDisk(st, rotates)) ==> AsFound(r.value, st.store.dirs, st.snapshot, R.TornDisk(st, rotates).wal))
    ensures left == catalog.wal.log.files ==> Settled(r.value, |log| + 1)
  {
    hide Settled, AsFound, SegmentedLogs.Superseded, HasTail;
    hide SegmentedLogs.Recoverable, SegmentedLogs.ReadBack, LogDisk.DiskOk, LogIndex.IndexOk, ImageOf, InOrder, StateOk, Wal.Valid, Wal.Durable, Segments.StartsOf,
         SegmentedLogs.ActiveOf, DiskOk, SoundDisk, IsHighest, NoneOvertaken, Shows, FallenOk, Restartable, Safe, R.CanWrite, LogRecovery.Crashed;
    var wal := catalog.wal;
    StateCounts(st, log);
    LoggedTail(st, log, cmd, rotates);
    R.LoggedSafe(st, log, cmd, rotates);
    top := FallenDisk(st, log, R.TornDisk(st, rotates));
    FallenHarmless(DiskOf(Logged(st, cmd, rotates)), log + [cmd]);
    FallenHarmless(R.TornDisk(st, rotates), log[..top]);
    ghost var log1 := if left == wal.log.files then log + [cmd] else log[..top];
    var again, entries := Wals.ReopenInsideAppend(wal, catalog.seqNo, cmd, left, st.wal, rotates);
    r := Open(again, entries, catalog.dirs, catalog.snapshot, log1);
  }

  /** A command just logged is above the applied point. */
  lemma LoggedTail(st: State, log: Log, cmd: Command, rotates: bool)
    requires StateOk(st, log)
    ensures HasTail(DiskOf(Logged(st, cmd, rotates)))
  {
    assert st.seqNo + 1 in DiskOf(Logged(st, cmd, rotates)).wal.entries;
  }

  lemma StateCounts(st: State, log: Log)
    requires StateOk(st, log)
    ensures st.seqNo == |log|
  {
  }

  lemma AllLeft(files: map<nat, Frames.Bytes>, durable: map<nat, nat>, left: map<nat, Frames.Bytes>)
    requires LogDisk.AllDurable(files, durable) && LogRecovery.Crashed(files, durable, left)
    ensures left == files
  {
    forall s | s in files ensures left[s] == files[s] {
      assert left[s] <= files[s] && |files[s]| <= |left[s]|;
    }
  }
}
