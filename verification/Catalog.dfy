/**
 The catalog as an object: open collections, their directories, `catalog.pb`, the sequence counter
 and the write-ahead log, changed in place by each operation. Every operation is proved against
 the value-level steps that the recovery and replication theorems are about.
 */
module Catalogs {
  import opened Outcome
  import opened Mappings
  import opened Documents
  import opened Commands
  import opened Stores
  import S = Standalone
  import R = StandaloneRuns
  import Frames
  import SegmentedLogs
  import LogIndex
  import LogDisk
  import Wals

  datatype CatalogError =
    | NotFound(name: Name)
    | Conflict(name: Name)
    | InvalidJson
    | Rejected(error: ValidationError)
    | RecordTooLong
    | ApplyFailed(cause: StoreError)

  // ---------------------------------------------------------------- loops over the collections

  /** The live entries' uuids are their own. */
  predicate OwnUuids(live: map<Name, Entry>) {
    forall n, n' :: n in live && n' in live && n != n' ==> live[n].uuid != live[n'].uuid
  }

  /** `dirs'` is `dirs` after the collections `done` were committed at `mark`. */
  ghost predicate Committed(live: map<Name, Entry>, dirs: map<Uuid, Dir>, done: set<Name>, mark: LogMark, dirs': map<Uuid, Dir>) {
    && (forall u :: u in dirs' <==> u in dirs || exists n :: n in done && n in live && live[n].uuid == u)
    && (OwnUuids(live) ==> forall n :: n in done && n in live ==> live[n].uuid in dirs' && dirs'[live[n].uuid] == Dir(live[n].buffer, Some(mark)))
    && (forall u :: u in dirs && (forall n :: n in done && n in live ==> live[n].uuid != u) ==> u in dirs' && dirs'[u] == dirs[u])
  }

  lemma CommitStep(live: map<Name, Entry>, dirs: map<Uuid, Dir>, done: set<Name>, mark: LogMark, dirs': map<Uuid, Dir>, n: Name)
    requires Committed(live, dirs, done, mark, dirs') && n in live && n !in done
    ensures Committed(live, dirs, done + {n}, mark, dirs'[live[n].uuid := Dir(live[n].buffer, Some(mark))])
  {
    var more, after := done + {n}, dirs'[live[n].uuid := Dir(live[n].buffer, Some(mark))];
    forall u ensures u in after <==> u in dirs || exists n' :: n' in more && n' in live && live[n'].uuid == u {
      if n' :| n' in more && n' in live && live[n'].uuid == u {
        assert n' == n || n' in done;
      }
    }
  }

  lemma NothingCommitted(live: map<Name, Entry>, dirs: map<Uuid, Dir>, mark: LogMark, first: S.Disk)
    ensures Committed(live, dirs, live.Keys - live.Keys, mark, dirs) && CommitsInTurn(live, mark, first, [])
  {
  }

  /** With one uuid per collection, committing all of a swept store is the checkpoint's commit. */
  lemma CommittedAll(live: map<Name, Entry>, dirs: map<Uuid, Dir>, mark: LogMark, dirs': map<Uuid, Dir>)
    requires Committed(live, dirs, live.Keys, mark, dirs') && OwnUuids(live)
    requires forall u :: u in dirs ==> u in LiveUuids(live)
    ensures S.CommitsAll(Store(live, dirs), Store(live, dirs'), mark)
  {
    forall u ensures u in dirs' <==> u in LiveUuids(live) {
      if u in LiveUuids(live) {
        var n :| n in live && live[n].uuid == u;
      }
    }
    assert dirs'.Keys == LiveUuids(live);
  }

  /** `snapshot_proto`'s entries. */
  method SnapshotEntries(live: map<Name, Entry>) returns (entries: map<Name, SnapshotEntry>)
    ensures Lists(entries, live)
  {
    entries := map[];
    var rest := live.Keys;
    while rest != {}
      invariant rest <= live.Keys && entries.Keys == live.Keys - rest
      invariant forall n :: n in entries ==> entries[n] == IdentityOf(live[n])
      decreases rest
    {
      var n := Pick(rest);
      entries := entries[n := IdentityOf(live[n])];
      rest := rest - {n};
    }
  }

  /** The mark of a collection's last commit, the default one before its first. */
  function CommitMark(s: Store, n: Name): (mark: LogMark)
    requires n in s.live
    ensures mark.index == MarkIndex(s, n)
  {
    var u := s.live[n].uuid;
    if u in s.dirs then MarkOf(s.dirs[u]) else DEFAULT_MARK
  }

  /** The whole mark, term and node included, that the collection's directory was last committed with, the default one if it never was. */
  predicate CommittedWith(s: Store, n: Name, mark: LogMark)
    requires n in s.live
  {
    var u := s.live[n].uuid;
    if u in s.dirs && s.dirs[u].mark.Some? then s.dirs[u].mark == Some(mark) else mark == LogMark(0, 0, 0)
  }

  /** `min_committed_mark`: the least commit mark, none when there are no collections. */
  method MinCommittedMark(s: Store) returns (least: Option<LogMark>)
    ensures least.None? <==> s.live.Keys == {}
    ensures least.Some? ==>
              && (exists n :: n in s.live && CommittedWith(s, n, least.value))
              && forall n :: n in s.live ==> least.value.index <= MarkIndex(s, n)
  {
    least := None;
    var rest := s.live.Keys;
    while rest != {}
      invariant rest <= s.live.Keys && (least.None? ==> rest == s.live.Keys)
      invariant least.Some? ==>
                  && (exists n :: n in s.live && CommittedWith(s, n, least.value))
                  && forall n :: n in s.live && n !in rest ==> least.value.index <= MarkIndex(s, n)
      decreases rest
    {
      var n := Pick(rest);
      var mark := CommitMark(s, n);
      assert CommittedWith(s, n, mark);
      if least.None? || mark.index < least.value.index {
        least := Some(mark);
      }
      rest := rest - {n};
    }
  }

  // ---------------------------------------------------------------- disks along the way

  /** The last of the disks an operation passed through, or the one it began with. */
  function LastDisk(first: S.Disk, more: seq<S.Disk>): S.Disk {
    if more == [] then first else more[|more| - 1]
  }

  /** One collection more is committed at `mark`. */
  ghost predicate CommitsOne(live: map<Name, Entry>, mark: LogMark, d: S.Disk, e: S.Disk) {
    exists n :: n in live && e == d.(dirs := d.dirs[live[n].uuid := Dir(live[n].buffer, Some(mark))])
  }

  /** Each disk is the one before it with one collection more committed. */
  ghost predicate CommitsInTurn(live: map<Name, Entry>, mark: LogMark, first: S.Disk, more: seq<S.Disk>) {
    forall i :: 0 <= i < |more| ==> CommitsOne(live, mark, LastDisk(first, more[..i]), more[i])
  }

  /** The collections are committed one by one, and `catalog.pb` is written once all of them are; the log stays as it is. */
  ghost predicate CommitsThenPersists(live: map<Name, Entry>, mark: LogMark, first: S.Disk, more: seq<S.Disk>) {
    && more != [] && var commits, last := more[..|more| - 1], more[|more| - 1];
    var all := LastDisk(first, commits);
    && CommitsInTurn(live, mark, first, commits)
    && (forall n :: n in live ==> live[n].uuid in all.dirs && all.dirs[live[n].uuid].mark == Some(mark))
    && last == all.(snapshot := last.snapshot) && last.snapshot.appliedSeq == mark.index && Lists(last.snapshot.entries, live)
  }

  /** Directories leave the root one by one, none that a live entry owns. */
  ghost predicate SweepsThrough(live: map<Name, Entry>, first: S.Disk, more: seq<S.Disk>) {
    forall i :: 0 <= i < |more| ==>
      && more[i].snapshot == first.snapshot && more[i].wal == first.wal
      && (forall u :: u in more[i].dirs ==> u in first.dirs && more[i].dirs[u] == first.dirs[u])
      && forall u :: u in first.dirs && u in LiveUuids(live) ==> u in more[i].dirs
  }

  lemma CommitsNext(live: map<Name, Entry>, mark: LogMark, first: S.Disk, more: seq<S.Disk>, e: S.Disk)
    requires CommitsInTurn(live, mark, first, more) && CommitsOne(live, mark, LastDisk(first, more), e)
    ensures CommitsInTurn(live, mark, first, more + [e]) && LastDisk(first, more + [e]) == e
  {
    hide CommitsOne;
    var longer := more + [e];
    assert forall i :: 0 <= i <= |more| ==> longer[..i] == more[..i];
    assert more[..|more|] == more;
  }

  /** The state with its disk replaced. */
  function WithDisk(st: S.State, d: S.Disk): S.State {
    st.(store := st.store.(dirs := d.dirs), snapshot := d.snapshot, wal := d.wal)
  }

  lemma CommitSafe(st: S.State, log: Log, d: S.Disk, e: S.Disk)
    requires S.StateOk(WithDisk(st, d), log) && CommitsOne(st.store.live, LogMark(0, 0, st.seqNo), d, e)
    ensures S.StateOk(WithDisk(st, e), log) && S.DiskOk(e, log)
  {
    hide S.StateOk, S.DiskOk;
    var n :| n in st.store.live && e == d.(dirs := d.dirs[st.store.live[n].uuid := Dir(st.store.live[n].buffer, Some(LogMark(0, 0, st.seqNo)))]);
    R.CommitKeeps(WithDisk(st, d), log, n);
    assert WithDisk(st, e) == R.Committed(WithDisk(st, d), n);
    DiskIsOk(WithDisk(st, e), log);
    assert S.DiskOf(WithDisk(st, e)) == e;
  }

  lemma DiskIsOk(st: S.State, log: Log)
    requires S.StateOk(st, log)
    ensures S.DiskOk(S.DiskOf(st), log)
  {
  }

  /** From a consistent catalog, every disk on the way is one from which recovery is exact. */
  lemma {:induction false} CommitsSafe(st: S.State, log: Log, more: seq<S.Disk>)
    requires S.StateOk(st, log) && CommitsInTurn(st.store.live, LogMark(0, 0, st.seqNo), S.DiskOf(st), more)
    ensures S.StateOk(WithDisk(st, LastDisk(S.DiskOf(st), more)), log)
    ensures forall e :: e in more ==> S.DiskOk(e, log)
  {
    hide S.StateOk, S.DiskOk, CommitsOne;
    if more != [] {
      var k := |more| - 1;
      var fewer := more[..k];
      assert forall i :: 0 <= i < k ==> fewer[i] == more[i] && fewer[..i] == more[..i];
      CommitsSafe(st, log, fewer);
      CommitSafe(st, log, LastDisk(S.DiskOf(st), fewer), more[k]);
      forall e | e in more ensures S.DiskOk(e, log) {
        assert e in fewer || e == more[k];
      }
    } else {
      assert WithDisk(st, S.DiskOf(st)) == st;
    }
  }

  lemma PersistSafe(st: S.State, log: Log, more: seq<S.Disk>)
    requires S.StateOk(st, log) && CommitsThenPersists(st.store.live, LogMark(0, 0, st.seqNo), S.DiskOf(st), more)
    ensures S.StateOk(WithDisk(st, LastDisk(S.DiskOf(st), more)), log)
    ensures forall e :: e in more ==> S.DiskOk(e, log)
  {
    var commits, last := more[..|more| - 1], more[|more| - 1];
    var now := WithDisk(st, LastDisk(S.DiskOf(st), commits));
    hide S.StateOk, S.DiskOk, CommitsInTurn;
    CommitsSafe(st, log, commits);
    R.PersistKeeps(now, log, last.snapshot);
    DiskIsOk(now.(snapshot := last.snapshot), log);
    assert S.DiskOf(now.(snapshot := last.snapshot)) == last;
    forall e | e in more ensures S.DiskOk(e, log) {
      assert e in commits || e == last;
    }
  }

  /** Whatever files are left of the log, its image and the rest of the disk recover exactly. */
  ghost predicate RecoversWith(c: Frames.Codec<Wals.WalEntry>, crc: Frames.Checksum, dirs: map<Uuid, Dir>, snapshot: Snapshot, dir: LogDisk.Directory, log: Log) {
    exists w :: Wals.HoldsImage(c, crc, dir, w) && S.DiskOk(S.Disk(dirs, snapshot, w), log)
  }

  lemma TrimSafe(c: Frames.Codec<Wals.WalEntry>, crc: Frames.Checksum, st: S.State, log: Log, dir: LogDisk.Directory)
    requires S.StateOk(st, log) && Wals.TrimsTo(c, crc, st.wal, st.snapshot.appliedSeq, dir)
    ensures RecoversWith(c, crc, st.store.dirs, st.snapshot, dir, log)
  {
    hide S.StateOk, S.DiskOk, Wals.HoldsImage, S.Trims;
    var w :| Wals.HoldsImage(c, crc, dir, w) && S.Trims(st.wal, w, st.snapshot.appliedSeq);
    R.TrimKeeps(st, log, w);
    DiskIsOk(st.(wal := w), log);
    assert S.DiskOf(st.(wal := w)) == S.Disk(st.store.dirs, st.snapshot, w);
  }

  // ---------------------------------------------------------------- the catalog

  class Catalog {
    const wal: Wals.Wal
    var live: map<Name, Entry>
    var dirs: map<Uuid, Dir>
    var snapshot: Snapshot
    var seqNo: nat
    /** The disk after each write of a collection directory or of `catalog.pb`. */
    ghost var history: seq<S.Disk>

    constructor (wal: Wals.Wal, live: map<Name, Entry>, dirs: map<Uuid, Dir>, snapshot: Snapshot, seqNo: nat)
      ensures this.wal == wal && this.live == live && this.dirs == dirs && this.snapshot == snapshot && this.seqNo == seqNo
    {
      this.wal, this.live, this.dirs, this.snapshot, this.seqNo, history := wal, live, dirs, snapshot, seqNo, [];
    }

    /** Writes one collection directory. */
    method WriteDir(uuid: Uuid, dir: Dir)
      modifies `dirs, `history
      ensures dirs == old(dirs)[uuid := dir] && history == old(history) + [S.DiskOf(Now())]
    {
      dirs := dirs[uuid := dir];
      history := history + [S.DiskOf(Now())];
    }

    /** Takes one collection directory out of the root, if it is there. */
    method DropDir(uuid: Uuid)
      modifies `dirs, `history
      ensures dirs == old(dirs) - {uuid} && history == old(history) + if uuid in old(dirs) then [S.DiskOf(Now())] else []
    {
      if uuid in dirs {
        dirs := dirs - {uuid};
        history := history + [S.DiskOf(Now())];
      }
    }

    /** Replaces `catalog.pb`. */
    method WriteSnapshot(p: Snapshot)
      modifies `snapshot, `history
      ensures snapshot == p && history == old(history) + [S.DiskOf(Now())]
    {
      snapshot := p;
      history := history + [S.DiskOf(Now())];
    }

    /** `sweep_orphans`: directories no live entry owns leave the root. */
    method SweepOrphans()
      modifies `dirs, `history
      ensures Sweeps(Store(live, old(dirs)), Store(live, dirs))
      ensures old(history) <= history && SweepsThrough(live, old(S.DiskOf(Now())), history[|old(history)|..])
    {
      var owned, rest := LiveUuids(live), dirs.Keys;
      ghost var first, more := S.DiskOf(Now()), [];
      while rest != {}
        invariant rest <= old(dirs).Keys && dirs.Keys == rest + old(dirs).Keys * owned
        invariant forall u :: u in dirs ==> u in old(dirs) && dirs[u] == old(dirs)[u]
        invariant history == old(history) + more && SweepsThrough(live, first, more)
        decreases rest
      {
        var u := Pick(rest);
        if u !in owned {
          DropDir(u);
          more := more + [S.DiskOf(Now())];
        }
        rest := rest - {u};
      }
      assert history[|old(history)|..] == more;
    }

    /** The state the theorems about runs speak of. */
    ghost function Now(): S.State
      reads this, wal
    {
      S.State(Store(live, dirs), snapshot, wal.image, seqNo)
    }

    /** The log holds its image durably, and no number above the counter. */
    ghost predicate Valid()
      reads `seqNo, wal, wal.log
    {
      wal.Valid() && wal.Durable() && Wals.AllBelow(wal.image, seqNo + 1)
    }

    /** The log's active file exists. */
    predicate Usable()
      reads wal.log
    {
      wal.log.Usable()
    }

    /** The next entry begins a new log file. */
    ghost predicate Rotates()
      reads `seqNo, wal.log
    {
      wal.Rotates(seqNo + 1)
    }

    /** A file it begins does not lie below the end of the last one. */
    ghost predicate Clear()
      reads `seqNo, wal, wal.log
    {
      S.Clears(wal.image, seqNo + 1, Rotates())
    }

    lemma ValidInPlace()
      requires Valid()
      ensures Usable() && (Clear() ==> wal.InPlace(seqNo + 1))
    {
      hide Wals.ImageOf, LogDisk.DiskOk;
      wal.GroundedUsable();
    }

    /** The entry fits a log record. */
    ghost predicate Loggable(cmd: Command)
      reads this
    {
      Frames.Fits(wal.codec.encode(Wals.WalEntry(seqNo + 1, cmd)))
    }

    /**
     Takes the next sequence number and logs the command under it. A command too long for a record
     still uses up its number: the next one then lands past a gap, unless the log has no file yet.
     */
    method LogNext(cmd: Command) returns (ok: bool)
      requires Usable()
      modifies `seqNo, wal, wal.log
      ensures ok == old(Loggable(cmd)) && Usable() && seqNo == old(seqNo) + 1
      ensures !ok ==> Now() == S.Skipped(old(Now())) && (old(Valid()) ==> Valid())
      ensures ok && old(Valid() && Clear()) ==> Valid() && Now() == S.Logged(old(Now()), cmd, old(Rotates()))
      ensures !ok && old(S.Contiguous(wal.image, seqNo + 1)) ==> (S.Contiguous(wal.image, seqNo + 1) <==> wal.image.next.None?)
    {
      hide Wals.Wal.Valid, Wals.Wal.Durable, Wals.Wal.InPlace, Wals.Wal.Rotates, SegmentedLogs.SegmentedLog.Usable;
      if Valid() {
        ValidInPlace();
      }
      seqNo := seqNo + 1;
      ok := wal.Append(seqNo, cmd);
    }

    /** Inside `LogNext`, from state `st`: the frame is written, and not yet synced. */
    ghost predicate MidLog(st: S.State, cmd: Command, rotates: bool)
      reads this, wal, wal.log
    {
      Now().(wal := st.wal) == S.Skipped(st) && wal.MidAppend(st.wal, seqNo, cmd, rotates)
    }

    /** `LogNext` up to its sync. */
    method BeginLog(cmd: Command)
      requires Valid() && Clear() && Loggable(cmd)
      modifies `seqNo, wal, wal.log
      ensures MidLog(old(Now()), cmd, old(Rotates()))
    {
      hide Wals.Wal.Valid, Wals.Wal.Durable, Wals.Wal.InPlace, Wals.Wal.MidAppend, Wals.Wal.Rotates, SegmentedLogs.SegmentedLog.Usable;
      ValidInPlace();
      seqNo := seqNo + 1;
      var _ := wal.Write(seqNo, cmd);
    }

    /** Creates a collection; creating it again with the same mapping does nothing. */
    method Create(name: Name, mapping: Mapping, uuid: Uuid) returns (r: Result<bool, CatalogError>)
      requires Usable()
      modifies `seqNo, `live, `dirs, `history, wal, wal.log
      ensures history == old(history) + if r == Ok(true) && uuid !in old(dirs) then [S.DiskOf(Now())] else []
      ensures name in old(live) ==> Now() == old(Now()) && Usable() && (old(Valid()) ==> Valid())
      ensures name in old(live) && old(live)[name].mapping == mapping ==> r == Ok(false)
      ensures name in old(live) && old(live)[name].mapping != mapping ==> r == Fail(Conflict(name))
      ensures name !in old(live) ==> r == if old(Loggable(Command.Create(name, uuid, mapping))) then Ok(true) else Fail(RecordTooLong)
      ensures r == Ok(true) ==>
                var cmd := Command.Create(name, uuid, mapping);
                && S.Accepts(Store(old(live), old(dirs)), cmd) && Usable() && Now() == S.Written(old(Now()), cmd, old(Rotates())).(wal := wal.image)
                && (old(Valid() && Clear()) ==> Valid() && Now() == S.Written(old(Now()), cmd, old(Rotates())))
      ensures r == Fail(RecordTooLong) ==> Now() == S.Skipped(old(Now())) && Usable() && (old(Valid()) ==> Valid())
    {
      hide Usable, Valid, Clear, Rotates, Wals.Wal.Valid, Wals.Wal.Durable;
      if name in live {
        return if live[name].mapping == mapping then Ok(false) else Fail(Conflict(name));
      }
      var ok := LogNext(Command.Create(name, uuid, mapping));
      if !ok {
        return Fail(RecordTooLong);
      }
      InstallCollection(name, uuid, mapping, seqNo);
      r := Ok(true);
    }

    /** Opens the collection's directory, or creates it. */
    method InstallCollection(name: Name, uuid: Uuid, mapping: Mapping, createdSeq: nat)
      modifies `live, `dirs, `history
      ensures history == old(history) + if uuid in old(dirs) then [] else [S.DiskOf(Now())]
      ensures Store(live, dirs) == Install(Store(old(live), old(dirs)), name, uuid, mapping, createdSeq)
    {
      if uuid in dirs {
        live := live[name := Entry(uuid, createdSeq, mapping, dirs[uuid].docs)];
      } else {
        live := live[name := Entry(uuid, createdSeq, mapping, map[])];
        WriteDir(uuid, Dir(map[], None));
      }
    }

    /** Drops a collection: logged first, then forgotten, then its directory is removed. */
    method DropCollection(name: Name) returns (r: Result<bool, CatalogError>)
      requires Usable()
      modifies `seqNo, `live, `dirs, `history, wal, wal.log
      ensures history == old(history) + if r.Ok? && name in old(live) && old(live)[name].uuid in old(dirs) then [S.DiskOf(Now())] else []
      ensures name !in old(live) ==> r == Fail(NotFound(name)) && Now() == old(Now()) && Usable() && (old(Valid()) ==> Valid())
      ensures name in old(live) ==> r == if old(Loggable(Command.Drop(name))) then Ok(true) else Fail(RecordTooLong)
      ensures r.Ok? ==>
                var cmd := Command.Drop(name);
                && S.Accepts(Store(old(live), old(dirs)), cmd) && Usable() && Now() == S.Written(old(Now()), cmd, old(Rotates())).(wal := wal.image)
                && (old(Valid() && Clear()) ==> Valid() && Now() == S.Written(old(Now()), cmd, old(Rotates())))
      ensures r == Fail(RecordTooLong) ==> Now() == S.Skipped(old(Now())) && Usable() && (old(Valid()) ==> Valid())
    {
      hide Usable, Valid, Clear, Rotates, Wals.Wal.Valid, Wals.Wal.Durable;
      if name !in live {
        return Fail(NotFound(name));
      }
      var uuid := live[name].uuid;
      var ok := LogNext(Command.Drop(name));
      if !ok {
        return Fail(RecordTooLong);
      }
      live := live - {name};
      DropDir(uuid);
      r := Ok(true);
    }

    /** Validates a document, logs it and buffers it; a validated document never fails to build. */
    method UpsertDocument(name: Name, id: Id, source: Source) returns (r: Result<bool, CatalogError>)
      requires Usable() && (name in live ==> live[name].mapping.Valid())
      modifies `seqNo, `live, wal, wal.log
      ensures name !in old(live) ==> r == Fail(NotFound(name))
      ensures name in old(live) && source.parsed.None? ==> r == Fail(InvalidJson)
      ensures name in old(live) && source.parsed.Some? && !Accepted(old(live)[name].mapping, source.parsed.value) ==>
                r.Fail? && r.error.Rejected? && IsFault(old(live)[name].mapping, source.parsed.value, r.error.error)
      ensures name in old(live) && source.parsed.Some? && Accepted(old(live)[name].mapping, source.parsed.value) ==>
                r == if old(Loggable(Command.Index(name, id, source))) then Ok(true) else Fail(RecordTooLong)
      ensures r.Fail? && !r.error.RecordTooLong? ==> Now() == old(Now()) && Usable() && (old(Valid()) ==> Valid())
      ensures r.Ok? ==>
                var cmd := Command.Index(name, id, source);
                && S.Accepts(Store(old(live), dirs), cmd) && Usable() && Now() == S.Written(old(Now()), cmd, old(Rotates())).(wal := wal.image)
                && (old(Valid() && Clear()) ==> Valid() && Now() == S.Written(old(Now()), cmd, old(Rotates())))
      ensures r == Fail(RecordTooLong) ==> Now() == S.Skipped(old(Now())) && Usable() && (old(Valid()) ==> Valid())
    {
      hide Usable, Valid, Clear, Rotates, Wals.Wal.Valid, Wals.Wal.Durable, Documents.Builds, Documents.Accepted;
      if name !in live {
        return Fail(NotFound(name));
      }
      if source.parsed.None? {
        return Fail(InvalidJson);
      }
      var err := ValidateDocument(live[name].mapping, source.parsed.value);
      if err.Some? {
        return Fail(Rejected(err.value));
      }
      ValidatedBuilds(live[name].mapping, source.parsed.value);
      var ok := LogNext(Command.Index(name, id, source));
      if !ok {
        return Fail(RecordTooLong);
      }
      live := live[name := live[name].(buffer := live[name].buffer[id := source])];
      r := Ok(true);
    }

    /** Logs a delete and buffers it. */
    method DeleteDocument(name: Name, id: Id) returns (r: Result<bool, CatalogError>)
      requires Usable()
      modifies `seqNo, `live, wal, wal.log
      ensures name !in old(live) ==> r == Fail(NotFound(name)) && Now() == old(Now()) && Usable() && (old(Valid()) ==> Valid())
      ensures name in old(live) ==> r == if old(Loggable(Command.Delete(name, id))) then Ok(true) else Fail(RecordTooLong)
      ensures r.Ok? ==>
                var cmd := Command.Delete(name, id);
                && S.Accepts(Store(old(live), dirs), cmd) && Usable() && Now() == S.Written(old(Now()), cmd, old(Rotates())).(wal := wal.image)
                && (old(Valid() && Clear()) ==> Valid() && Now() == S.Written(old(Now()), cmd, old(Rotates())))
      ensures r == Fail(RecordTooLong) ==> Now() == S.Skipped(old(Now())) && Usable() && (old(Valid()) ==> Valid())
    {
      hide Usable, Valid, Clear, Rotates, Wals.Wal.Valid, Wals.Wal.Durable;
      if name !in live {
        return Fail(NotFound(name));
      }
      var ok := LogNext(Command.Delete(name, id));
      if !ok {
        return Fail(RecordTooLong);
      }
      live := live[name := live[name].(buffer := live[name].buffer - {id})];
      r := Ok(true);
    }

    /** Writes `catalog.pb`. */
    method Persist(appliedSeq: nat)
      modifies `snapshot, `history
      ensures snapshot.appliedSeq == appliedSeq && Lists(snapshot.entries, live) && history == old(history) + [S.DiskOf(Now())]
    {
      var entries := SnapshotEntries(live);
      WriteSnapshot(Snapshot(appliedSeq, entries));
    }

    /** `commit_all`'s loop: every open collection commits its buffer, tagged with `mark`. */
    method CommitEach(mark: LogMark)
      modifies `dirs, `history
      ensures Committed(live, old(dirs), live.Keys, mark, dirs)
      ensures forall n :: n in live ==> live[n].uuid in dirs && dirs[live[n].uuid].mark == Some(mark)
      ensures old(history) <= history && CommitsInTurn(live, mark, old(S.DiskOf(Now())), history[|old(history)|..])
      ensures LastDisk(old(S.DiskOf(Now())), history[|old(history)|..]) == S.DiskOf(Now())
    {
      hide Committed, CommitsInTurn;
      var rest := live.Keys;
      ghost var first, more := S.DiskOf(Now()), [];
      NothingCommitted(live, dirs, mark, first);
      while rest != {}
        invariant rest <= live.Keys
        invariant Committed(live, old(dirs), live.Keys - rest, mark, dirs)
        invariant forall n :: n in live && n !in rest ==> live[n].uuid in dirs && dirs[live[n].uuid].mark == Some(mark)
        invariant history == old(history) + more && CommitsInTurn(live, mark, first, more) && LastDisk(first, more) == S.DiskOf(Now())
        decreases rest
      {
        var n := Pick(rest);
        CommitStep(live, old(dirs), live.Keys - rest, mark, dirs, n);
        WriteDir(live[n].uuid, Dir(live[n].buffer, Some(mark)));
        CommitsNext(live, mark, first, more, S.DiskOf(Now()));
        more := more + [S.DiskOf(Now())];
        assert live.Keys - (rest - {n}) == live.Keys - rest + {n};
        rest := rest - {n};
      }
      assert live.Keys - rest == live.Keys;
      assert history[|old(history)|..] == more;
    }

    /** Commits every collection at `mark`, one by one, and then writes `catalog.pb`. */
    method CommitAll(mark: LogMark)
      modifies `dirs, `snapshot, `history
      ensures Committed(live, old(dirs), live.Keys, mark, dirs)
      ensures snapshot.appliedSeq == mark.index && Lists(snapshot.entries, live)
      ensures old(history) <= history && CommitsThenPersists(live, mark, old(S.DiskOf(Now())), history[|old(history)|..])
      ensures LastDisk(old(S.DiskOf(Now())), history[|old(history)|..]) == S.DiskOf(Now())
    {
      hide Committed, CommitsInTurn, Lists;
      CommitEach(mark);
      ghost var commits := history[|old(history)|..];
      Persist(mark.index);
      assert history[|old(history)|..] == commits + [S.DiskOf(Now())];
      assert history[|old(history)|..][..|commits|] == commits;
    }

    /**
     Commits everything at the high-water mark, then trims the log through it. The log is left alone
     until every collection is committed and `catalog.pb` says so; from a consistent catalog every
     disk on the way is one from which recovery is exact.
     */
    method Checkpoint(ghost log: Log)
      requires wal.Valid()
      modifies `dirs, `snapshot, `history, wal, wal.log
      ensures old(history) <= history && CommitsThenPersists(live, LogMark(0, 0, seqNo), old(S.DiskOf(Now())), history[|old(history)|..])
      ensures old(wal.log.trail) <= wal.log.trail
      ensures SegmentedLogs.OneByOne(LogDisk.Directory(old(wal.log.files), old(wal.log.durable)), old(wal.log.starts), seqNo, wal.log.trail[|old(wal.log.trail)|..])
      ensures old(S.StateOk(Now(), log)) ==>
                && (forall e :: e in history[|old(history)|..] ==> S.DiskOk(e, log))
                && forall dir :: dir in wal.log.trail[|old(wal.log.trail)|..] ==> RecoversWith(wal.codec, wal.log.crc, dirs, snapshot, dir, log)
      ensures wal.Valid() && (old(wal.Durable()) ==> wal.Durable()) && (old(Valid()) ==> Valid())
      ensures Committed(live, old(dirs), live.Keys, LogMark(0, 0, seqNo), dirs)
      ensures snapshot.appliedSeq == seqNo && Lists(snapshot.entries, live) && S.Trims(old(wal.image), wal.image, seqNo)
      ensures wal.log.records == LogIndex.Above(old(wal.log.records), seqNo) && SegmentedLogs.Superseded(wal.log.starts, seqNo) == {}
      ensures wal.log.files == old(wal.log.files) - SegmentedLogs.Superseded(old(wal.log.starts), seqNo)
      ensures Wals.Keeps(wal.codec, old(wal.log.segs), wal.log.files, old(wal.image), wal.image)
    {
      hide Wals.Wal.Valid, Wals.Wal.Durable, Committed, Wals.Keeps, SegmentedLogs.Superseded, LogIndex.Above, CommitsThenPersists, SegmentedLogs.OneByOne, S.StateOk, S.DiskOk, Lists,
           RecoversWith, Wals.TrimsTo;
      ghost var st := Now();
      CommitAll(LogMark(0, 0, seqNo));
      ghost var committed := Now();
      if S.StateOk(st, log) {
        PersistSafe(st, log, history[|old(history)|..]);
        assert WithDisk(st, S.DiskOf(committed)) == committed;
      }
      wal.Trim(seqNo);
      if S.StateOk(st, log) {
        ghost var after := wal.log.trail[|old(wal.log.trail)|..];
        forall dir | dir in after ensures RecoversWith(wal.codec, wal.log.crc, dirs, snapshot, dir, log) {
          var e :| 0 <= e < |after| && after[e] == dir;
          TrimSafe(wal.codec, wal.log.crc, committed, log, dir);
        }
      }
    }

    /**
     Makes one collection's applied writes searchable, if it is behind `mark`: its directory then holds
     its buffer and the whole mark, and no other directory changes.
     */
    method CommitCollection(name: Name, mark: LogMark) returns (r: Result<bool, CatalogError>)
      modifies `dirs, `history
      ensures history == old(history) + if r == Ok(true) then [S.DiskOf(Now())] else []
      ensures name !in live ==> r == Fail(NotFound(name)) && dirs == old(dirs)
      ensures name in live ==>
                && r.Ok? && r.value == (MarkIndex(Store(live, old(dirs)), name) < mark.index)
                && Store(live, dirs) == (if r.value then CommitOne(Store(live, old(dirs)), name, mark) else Store(live, old(dirs)))
                && (!r.value ==> dirs == old(dirs))
                && (r.value ==> CommittedWith(Store(live, dirs), name, mark) && dirs == old(dirs)[live[name].uuid := Dir(live[name].buffer, Some(mark))])
    {
      if name !in live {
        return Fail(NotFound(name));
      }
      var uuid := live[name].uuid;
      var committed := if uuid in dirs then MarkOf(dirs[uuid]).index else 0;
      if committed < mark.index {
        WriteDir(uuid, Dir(live[name].buffer, Some(mark)));
        return Ok(true);
      }
      r := Ok(false);
    }

    /**
     Applies one committed command; a create or drop that takes effect rewrites `catalog.pb`, after it
     has made or removed the directory.
     */
    method Apply(k: nat, cmd: Command) returns (err: Option<StoreError>)
      modifies `live, `dirs, `snapshot, `history
      ensures err.None? ==>
                history == old(history) +
                  if Persists(Store(old(live), old(dirs)), cmd) then
                    (if dirs == old(dirs) then [] else [S.Disk(dirs, old(snapshot), wal.image)]) + [S.DiskOf(Now())]
                  else []
      ensures err.Some? <==> ApplyCommand(Store(old(live), old(dirs)), k, cmd).Fail?
      ensures err.Some? ==> ApplyCommand(Store(old(live), old(dirs)), k, cmd) == Fail(err.value) && unchanged(this)
      ensures err.None? ==>
                && ApplyCommand(Store(old(live), old(dirs)), k, cmd) == Ok(Store(live, dirs))
                && PersistsTo(old(snapshot), Store(old(live), old(dirs)), k, cmd, Store(live, dirs), snapshot)
    {
      err := None;
      match cmd {
        case Create(n, u, m) =>
          if n !in live {
            InstallCollection(n, u, m, k);
            Persist(k);
          }
        case Drop(n) =>
          if n in live {
            var uuid := live[n].uuid;
            live := live - {n};
            DropDir(uuid);
            Persist(k);
          }
        case Index(n, id, src) =>
          if n in live && MarkIndex(Store(live, dirs), n) < k {
            if !Buildable(live[n].mapping, src) {
              return Some(BadDocument(n, id));
            }
            live := live[n := live[n].(buffer := live[n].buffer[id := src])];
          }
        case Delete(n, id) =>
          if n in live && MarkIndex(Store(live, dirs), n) < k {
            live := live[n := live[n].(buffer := live[n].buffer - {id})];
          }
        case Blank =>
      }
    }
  }
}
