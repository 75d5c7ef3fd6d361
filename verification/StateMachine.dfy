/**
 The Raft state machine: it feeds committed entries to the catalog, reports how far it is safe to
 say it has applied, and replaces the catalog by a snapshot.
 */
module StateMachines {
  import opened Outcome
  import opened Commands
  import opened Stores
  import opened Catalogs
  import opened CatalogRecovery
  import opened Installs
  import R = ClusterRuns
  import S = Standalone

  datatype Payload = Empty | Membership(members: set<nat>) | Normal(command: Command)

  datatype CommittedEntry = CommittedEntry(mark: LogMark, payload: Payload)

  /** A membership and the entry it came with; `membership.pb` holds one. */
  datatype StoredMembership = StoredMembership(at: Option<LogMark>, members: set<nat>)

  const NO_MEMBERSHIP := StoredMembership(None, {})

  /** `after` is the membership of the last membership entry, or `before` if there is none. */
  ghost predicate LastMembership(entries: seq<CommittedEntry>, before: StoredMembership, after: StoredMembership) {
    && ((forall i :: 0 <= i < |entries| ==> !entries[i].payload.Membership?) ==> after == before)
    && forall i :: 0 <= i < |entries| && entries[i].payload.Membership? && (forall j :: i < j < |entries| ==> !entries[j].payload.Membership?) ==>
         after == StoredMembership(Some(entries[i].mark), entries[i].payload.members)
  }

  /** What an entry means to the catalog: blank and membership entries mean nothing. */
  function CommandOf(e: CommittedEntry): Command {
    match e.payload
    case Normal(cmd) => cmd
    case _ => Blank
  }

  /** The entries are the commands of `log` from position `start + 1` on. */
  predicate Follows(entries: seq<CommittedEntry>, log: Log, start: nat) {
    && start + |entries| <= |log|
    && forall i :: 0 <= i < |entries| ==> entries[i].mark.index == start + i + 1 && CommandOf(entries[i]) == log[start + i]
  }

  class StateMachine {
    const catalog: Catalog
    var lastApplied: Option<LogMark>
    var membership: StoredMembership
    /** The contents of `membership.pb`, if there is one. */
    var file: Option<StoredMembership>

    /** Loads the persisted membership. */
    constructor (catalog: Catalog, file: Option<StoredMembership>)
      ensures this.catalog == catalog && lastApplied == None && this.file == file
      ensures membership == if file.Some? then file.value else StoredMembership(None, {})
    {
      this.catalog, lastApplied, this.file := catalog, None, file;
      membership := if file.Some? then file.value else NO_MEMBERSHIP;
    }

    /** What a restart would load is the membership in force. */
    predicate Remembers()
      reads this
    {
      membership == if file.Some? then file.value else NO_MEMBERSHIP
    }

    method PersistMembership(m: StoredMembership)
      modifies `file
      ensures file == Some(m)
    {
      file := Some(m);
    }

    ghost function StoreNow(): Store
      reads this, catalog
    {
      Store(catalog.live, catalog.dirs)
    }

    /**
     Applies committed entries in order, stopping at the first that fails; `reached` of them were
     reached, the failing one included. What came before it stays applied.
     */
    method Apply(entries: seq<CommittedEntry>, ghost log: Log, ghost start: nat) returns (err: Option<StoreError>, ghost reached: nat)
      requires Follows(entries, log, start)
      modifies `lastApplied, `membership, `file, catalog`live, catalog`dirs, catalog`snapshot, catalog`history
      ensures err.None? <==> Replay(old(StoreNow()), log, start, start + |entries|).Ok?
      ensures err.None? ==> reached == |entries| && Replay(old(StoreNow()), log, start, start + |entries|) == Ok(StoreNow())
      ensures err.Some? ==>
                && 0 < reached <= |entries| && Replay(old(StoreNow()), log, start, start + reached - 1) == Ok(StoreNow())
                && Replay(old(StoreNow()), log, start, start + reached) == Fail(err.value)
      ensures lastApplied == if reached == 0 then old(lastApplied) else Some(entries[reached - 1].mark)
      ensures LastMembership(entries[..reached], old(membership), membership)
      ensures old(Remembers()) ==> Remembers()
      ensures old(Lists(catalog.snapshot.entries, catalog.live)) ==> Lists(catalog.snapshot.entries, catalog.live)
    {
      hide Replay, ApplyCommand, Lists, PersistsTo, LastMembership;
      err, reached := None, 0;
      ReplayNothing(StoreNow(), log, start);
      NoMembership(membership);
      for i := 0 to |entries|
        invariant err.None? && reached == i && Replay(old(StoreNow()), log, start, start + i) == Ok(StoreNow())
        invariant lastApplied == if i == 0 then old(lastApplied) else Some(entries[i - 1].mark)
        invariant LastMembership(entries[..i], old(membership), membership) && (old(Remembers()) ==> Remembers())
        invariant old(Lists(catalog.snapshot.entries, catalog.live)) ==> Lists(catalog.snapshot.entries, catalog.live)
      {
        ghost var k, before, was := start + i + 1, StoreNow(), catalog.snapshot;
        ReplayOne(old(StoreNow()), log, start, k, before);
        NextMembership(entries, i, old(membership), membership);
        lastApplied, reached := Some(entries[i].mark), i + 1;
        match entries[i].payload {
          case Empty =>
            BlankKeeps(before, k);
          case Membership(m) =>
            PersistMembership(StoredMembership(Some(entries[i].mark), m));
            membership := StoredMembership(Some(entries[i].mark), m);
            BlankKeeps(before, k);
          case Normal(cmd) =>
            err := catalog.Apply(entries[i].mark.index, cmd);
            if err.Some? {
              ReplayStops(old(StoreNow()), log, start, k, start + |entries|);
              return;
            }
            if Lists(was.entries, before.live) {
              ApplyPersists(was, before, k, cmd, StoreNow(), catalog.snapshot);
            }
        }
      }
      assert entries[..|entries|] == entries;
    }

    /**
     The mark that is safe to report as applied, with the membership: the whole mark of a collection
     none is committed below, or the last applied one without collections.
     */
    method AppliedState() returns (mark: Option<LogMark>, m: StoredMembership)
      ensures m == membership
      ensures catalog.live.Keys == {} ==> mark == lastApplied
      ensures catalog.live.Keys != {} ==>
                && mark.Some? && R.Reported(StoreNow(), mark.value.index, 0)
                && (exists n :: n in catalog.live && CommittedWith(StoreNow(), n, mark.value))
                && forall n, other :: n in catalog.live && CommittedWith(StoreNow(), n, other) ==> mark.value.index <= other.index
    {
      var least := MinCommittedMark(Store(catalog.live, catalog.dirs));
      mark, m := if least.Some? then least else lastApplied, membership;
    }

    /**
     Replaces the catalog by an archive, and the applied point by the archive's. The directories are
     moved in under the old `catalog.pb`, which is replaced when all of them are there; orphans leave last.
     */
    method InstallSnapshot(a: Archive, last: Option<LogMark>, m: StoredMembership) returns (ok: bool, ghost order: seq<Uuid>)
      requires forall n :: n in a.snapshot.entries ==> a.snapshot.entries[n].uuid in a.dirs
      modifies `lastApplied, `membership, `file, catalog`live, catalog`dirs, catalog`snapshot, catalog`seqNo, catalog`history
      ensures ok && lastApplied == last && membership == m && file == Some(m) && catalog.snapshot == a.snapshot
      ensures R.Loads(a.snapshot.entries, a.dirs, catalog.live)
      ensures catalog.dirs.Keys == LiveUuids(catalog.live)
      ensures forall u :: u in catalog.dirs ==> u in a.dirs && catalog.dirs[u] == a.dirs[u]
      ensures IsLargest(catalog.seqNo, a.snapshot)
      ensures MovesAll(a, order) && (OwnListed(a) ==> forall i, j :: 0 <= i < j < |order| ==> order[i] != order[j])
      ensures old(catalog.history) <= catalog.history
      ensures Installing(old(catalog.dirs), old(catalog.snapshot), a, order, catalog.live, catalog.history[|old(catalog.history)|..])
    {
      hide RenamesThrough, SweepsThrough, DirsAt, MovesAll, OwnListed, Installing;
      order := MoveIn(catalog, a);
      MovedDirs(a, order);
      ghost var before, moves := catalog.dirs, catalog.history[|old(catalog.history)|..];
      catalog.WriteSnapshot(a.snapshot);
      ghost var renamed := S.DiskOf(catalog.Now());
      var live := LoadEntries(a.snapshot.entries, catalog.dirs, {});
      ok := live.Some?;
      if ok {
        catalog.live := live.value;
        catalog.seqNo := TopSeq([], a.snapshot.appliedSeq, live.value);
        ghost var n := |catalog.history|;
        catalog.SweepOrphans();
        PersistMembership(m);
        lastApplied, membership := last, m;
        Swept(a, before, live.value, catalog.dirs);
        assert catalog.history[|old(catalog.history)|..] == moves + [renamed] + catalog.history[n..];
        InstallingIs(old(catalog.dirs), old(catalog.snapshot), a, order, catalog.live, moves, renamed, catalog.history[n..]);
      }
    }
  }

  /** The largest of the applied point and the creation numbers a `catalog.pb` mentions. */
  predicate IsLargest(top: nat, p: Snapshot) {
    && p.appliedSeq <= top && (forall n :: n in p.entries ==> p.entries[n].createdSeq <= top)
    && (top == p.appliedSeq || exists n :: n in p.entries && p.entries[n].createdSeq == top)
  }

  lemma NoMembership(m: StoredMembership)
    ensures LastMembership([], m, m)
  {
  }

  /** One entry more: a membership entry replaces the membership, any other keeps it. */
  lemma NextMembership(entries: seq<CommittedEntry>, i: nat, before: StoredMembership, after: StoredMembership)
    requires i < |entries| && LastMembership(entries[..i], before, after)
    ensures var e := entries[i];
            LastMembership(entries[..i + 1], before, if e.payload.Membership? then StoredMembership(Some(e.mark), e.payload.members) else after)
  {
    var upto, longer := entries[..i], entries[..i + 1];
    assert forall j :: 0 <= j < i ==> longer[j] == upto[j];
    if !entries[i].payload.Membership? {
      assert !longer[i].payload.Membership?;
      forall j | 0 <= j < |longer| && longer[j].payload.Membership? && (forall k :: j < k < |longer| ==> !longer[k].payload.Membership?)
        ensures after == StoredMembership(Some(longer[j].mark), longer[j].payload.members)
      {
        assert forall k :: j < k < |upto| ==> upto[k] == longer[k];
        assert upto[j].payload.Membership?;
      }
    } else {
      assert longer[i].payload.Membership?;
    }
  }

  lemma BlankKeeps(s: Store, k: nat)
    ensures ApplyCommand(s, k, Blank) == Ok(s)
  {
  }

  /** No two collections of the archive share a directory. */
  ghost predicate OwnListed(a: Archive) {
    forall n, n' :: n in a.snapshot.entries && n' in a.snapshot.entries && n != n' ==> a.snapshot.entries[n].uuid != a.snapshot.entries[n'].uuid
  }

  /**
   The disks an install passes through: those after each rename under the old `catalog.pb`, then the new
   one with every directory in place, then the same without some directories nobody owns.
   */
  ghost predicate Installing(dirs: map<Uuid, Dir>, p: Snapshot, a: Archive, order: seq<Uuid>, live: map<Name, Entry>, more: seq<S.Disk>)
    requires MovesAll(a, order)
  {
    exists m :: 0 <= m < |more| && InstallingAt(dirs, p, a, order, live, more, m)
  }

  ghost predicate InstallingAt(dirs: map<Uuid, Dir>, p: Snapshot, a: Archive, order: seq<Uuid>, live: map<Name, Entry>, more: seq<S.Disk>, m: nat)
    requires MovesAll(a, order) && m < |more|
  {
    MovedDirs(a, order);
    && RenamesThrough(dirs, p, a, order, more[..m])
    && more[m].dirs == DirsAt(dirs, a, order, 2 * |order|) && more[m].snapshot == a.snapshot
    && SweepsThrough(live, more[m], more[m + 1..])
  }

  lemma InstallingIs(dirs: map<Uuid, Dir>, p: Snapshot, a: Archive, order: seq<Uuid>, live: map<Name, Entry>, moves: seq<S.Disk>, renamed: S.Disk, sweeps: seq<S.Disk>)
    requires MovesAll(a, order) && (forall u :: u in order ==> u in a.dirs) && RenamesThrough(dirs, p, a, order, moves)
    requires renamed.dirs == DirsAt(dirs, a, order, 2 * |order|) && renamed.snapshot == a.snapshot && SweepsThrough(live, renamed, sweeps)
    ensures Installing(dirs, p, a, order, live, moves + [renamed] + sweeps)
  {
    hide RenamesThrough, SweepsThrough, DirsAt, MovesAll;
    var more, m := moves + [renamed] + sweeps, |moves|;
    assert more[..m] == moves && more[m] == renamed && more[m + 1..] == sweeps;
    assert InstallingAt(dirs, p, a, order, live, more, m);
  }

  /**
   What that means for a crash: whatever disk it leaves, the whole old catalog or the whole new one is
   opened, if and only if the two have no directory in common.
   */
  lemma InstallCrashIff(dirs: map<Uuid, Dir>, p: Snapshot, a: Archive, order: seq<Uuid>, before: map<Name, Entry>, after: map<Name, Entry>, more: seq<S.Disk>)
    requires Complete(a, order) && MovesAll(a, order) && Installing(dirs, p, a, order, after, more)
    requires R.Loads(p.entries, dirs, before) && R.Loads(a.snapshot.entries, a.dirs, after)
    ensures (forall e :: e in more ==> ReopensAs(e.snapshot, e.dirs, before) || ReopensAs(e.snapshot, e.dirs, after)) <==> !Shares(p, order)
  {
    var m :| 0 <= m < |more| && InstallingAt(dirs, p, a, order, after, more, m);
    if Shares(p, order) {
      SharedCrash(dirs, p, a, order, before, after, more[..m]);
      var e :| e in more[..m] && !ReopensAs(e.snapshot, e.dirs, before) && !ReopensAs(e.snapshot, e.dirs, after);
      assert e in more;
    } else {
      hide DirsAt, ReopensAs, Complete, MovesAll, Shares, R.Loads;
      forall e | e in more ensures ReopensAs(e.snapshot, e.dirs, before) || ReopensAs(e.snapshot, e.dirs, after) {
        var i :| 0 <= i < |more| && more[i] == e;
        if i < m {
          assert more[..m][i] == e && e in more[..m];
          RenamedReopens(dirs, p, a, order, before, e);
        } else {
          assert i == m || more[m + 1..][i - m - 1] == e;
          SweptReopens(dirs, a, order, after, more[m].dirs, e.dirs);
        }
      }
    }
  }

  lemma RenamedReopens(dirs: map<Uuid, Dir>, p: Snapshot, a: Archive, order: seq<Uuid>, before: map<Name, Entry>, e: S.Disk)
    requires Complete(a, order) && RenamedTo(dirs, a, order, e.dirs) && e.snapshot == p && R.Loads(p.entries, dirs, before) && !Shares(p, order)
    ensures ReopensAs(e.snapshot, e.dirs, before)
  {
    var j :| 0 <= j <= 2 * |order| && e.dirs == DirsAt(dirs, a, order, j);
    hide DirsAt, ReopensAs;
    forall n | n in p.entries ensures Get(e.dirs, p.entries[n].uuid) == Get(dirs, p.entries[n].uuid) {
      OthersStay(dirs, a, order, j, p.entries[n].uuid);
    }
    ReopensLike(p, dirs, e.dirs, before);
  }

  /** Without some directories nobody owns the new catalog opens all the same. */
  lemma SweptReopens(dirs: map<Uuid, Dir>, a: Archive, order: seq<Uuid>, after: map<Name, Entry>, all: map<Uuid, Dir>, left: map<Uuid, Dir>)
    requires Complete(a, order) && R.Loads(a.snapshot.entries, a.dirs, after) && all == DirsAt(dirs, a, order, 2 * |order|)
    requires (forall u :: u in left ==> u in all && left[u] == all[u]) && forall u :: u in all && u in LiveUuids(after) ==> u in left
    ensures ReopensAs(a.snapshot, left, after)
  {
    hide ReopensAs;
    forall n | n in a.snapshot.entries ensures Get(left, a.snapshot.entries[n].uuid) == Get(a.dirs, a.snapshot.entries[n].uuid) {
      var u := a.snapshot.entries[n].uuid;
      var i :| 0 <= i < |order| && order[i] == u;
      MovedIn(dirs, a, order, 2 * |order|, i);
      assert after[n].uuid == u && u in LiveUuids(after);
    }
    ReopensLike(a.snapshot, a.dirs, left, after);
  }

  lemma SharedCrash(dirs: map<Uuid, Dir>, p: Snapshot, a: Archive, order: seq<Uuid>, before: map<Name, Entry>, after: map<Name, Entry>, moves: seq<S.Disk>)
    requires Complete(a, order) && RenamesThrough(dirs, p, a, order, moves) && Shares(p, order) && R.Loads(p.entries, dirs, before)
    ensures exists e :: e in moves && !ReopensAs(e.snapshot, e.dirs, before) && !ReopensAs(e.snapshot, e.dirs, after)
  {
    var j := SharedIsLost(p, dirs, a, order);
    var lost := DirsAt(dirs, a, order, j);
    hide DirsAt, R.Reopens, RenamedTo;
    ReopensLike(p, dirs, dirs, before);
    assert !ReopensAs(p, lost, before) && !ReopensAs(p, lost, after);
    assert lost != dirs && Among(lost, moves);
    var e :| e in moves && e.dirs == lost;
  }

  /** Moves each collection directory of the archive into the root, the old one aside first. */
  method MoveIn(catalog: Catalog, a: Archive) returns (ghost order: seq<Uuid>)
    requires forall n :: n in a.snapshot.entries ==> a.snapshot.entries[n].uuid in a.dirs
    modifies catalog`dirs, catalog`history
    ensures forall n :: n in a.snapshot.entries ==>
              a.snapshot.entries[n].uuid in catalog.dirs && catalog.dirs[a.snapshot.entries[n].uuid] == a.dirs[a.snapshot.entries[n].uuid]
    ensures MovesAll(a, order) && (forall u :: u in order ==> u in a.dirs)
    ensures OwnListed(a) ==> forall i, j :: 0 <= i < j < |order| ==> order[i] != order[j]
    ensures old(catalog.history) <= catalog.history
    ensures RenamesThrough(old(catalog.dirs), catalog.snapshot, a, order, catalog.history[|old(catalog.history)|..])
    ensures catalog.dirs == DirsAt(old(catalog.dirs), a, order, 2 * |order|)
  {
    hide RenamesThrough, DirsAt;
    order := [];
    var rest := a.snapshot.entries.Keys;
    ghost var more := [];
    RenamesNone(catalog.dirs, catalog.snapshot, a);
    while rest != {}
      invariant rest <= a.snapshot.entries.Keys
      invariant forall n :: n in a.snapshot.entries && n !in rest ==>
                  a.snapshot.entries[n].uuid in catalog.dirs && catalog.dirs[a.snapshot.entries[n].uuid] == a.dirs[a.snapshot.entries[n].uuid]
      invariant (forall u :: u in order ==> u in a.dirs) && forall u :: u in order <==> exists n :: n in a.snapshot.entries && n !in rest && a.snapshot.entries[n].uuid == u
      invariant OwnListed(a) ==> forall i, j :: 0 <= i < j < |order| ==> order[i] != order[j]
      invariant catalog.history == old(catalog.history) + more && RenamesThrough(old(catalog.dirs), catalog.snapshot, a, order, more)
      invariant catalog.dirs == DirsAt(old(catalog.dirs), a, order, 2 * |order|)
      decreases rest
    {
      var n := Pick(rest);
      var u := a.snapshot.entries[n].uuid;
      ghost var d, h := catalog.dirs, catalog.history;
      catalog.DropDir(u);
      catalog.WriteDir(u, a.dirs[u]);
      ghost var extra := (if u in d then [S.Disk(d - {u}, catalog.snapshot, catalog.wal.image)] else []) + [S.Disk((d - {u})[u := a.dirs[u]], catalog.snapshot, catalog.wal.image)];
      assert catalog.history == h + extra;
      RenamesNext(old(catalog.dirs), catalog.snapshot, a, order, more, u, catalog.wal.image, extra);
      OrderNext(a, order, rest, n);
      order, more := order + [u], more + extra;
      rest := rest - {n};
    }
    assert catalog.history[|old(catalog.history)|..] == more;
  }

  lemma OrderNext(a: Archive, order: seq<Uuid>, rest: set<Name>, n: Name)
    requires n in rest && n in a.snapshot.entries
    requires forall u :: u in order <==> exists n :: n in a.snapshot.entries && n !in rest && a.snapshot.entries[n].uuid == u
    requires OwnListed(a) ==> forall i, j :: 0 <= i < j < |order| ==> order[i] != order[j]
    ensures var longer := order + [a.snapshot.entries[n].uuid];
            && (forall u :: u in longer <==> exists n' :: n' in a.snapshot.entries && n' !in rest - {n} && a.snapshot.entries[n'].uuid == u)
            && (OwnListed(a) ==> forall i, j :: 0 <= i < j < |longer| ==> longer[i] != longer[j])
  {
    var u0 := a.snapshot.entries[n].uuid;
    var longer := order + [u0];
    forall u ensures u in longer <==> exists n' :: n' in a.snapshot.entries && n' !in rest - {n} && a.snapshot.entries[n'].uuid == u {
      if n' :| n' in a.snapshot.entries && n' !in rest - {n} && a.snapshot.entries[n'].uuid == u {
        assert n' == n || n' !in rest;
      }
    }
    assert OwnListed(a) ==> u0 !in order;
  }

  lemma Swept(a: Archive, dirs: map<Uuid, Dir>, live: map<Name, Entry>, kept: map<Uuid, Dir>)
    requires forall n :: n in a.snapshot.entries ==>
               a.snapshot.entries[n].uuid in a.dirs && a.snapshot.entries[n].uuid in dirs && dirs[a.snapshot.entries[n].uuid] == a.dirs[a.snapshot.entries[n].uuid]
    requires live.Keys == a.snapshot.entries.Keys && forall n :: n in live ==> live[n] == OpenEntry(a.snapshot.entries[n], dirs)
    requires Sweeps(Store(live, dirs), Store(live, kept))
    ensures R.Loads(a.snapshot.entries, a.dirs, live) && kept.Keys == LiveUuids(live)
    ensures forall u :: u in kept ==> u in a.dirs && kept[u] == a.dirs[u]
  {
    forall u | u in LiveUuids(live) ensures u in dirs && u in a.dirs && dirs[u] == a.dirs[u] {
      var n :| n in live && live[n].uuid == u;
      assert a.snapshot.entries[n].uuid == u;
    }
    assert kept.Keys == LiveUuids(live);
  }
}
