/**
 Installing a snapshot archive over a catalog: collection directories are moved in one by one, and
 `catalog.pb` is replaced last. When a crash in between leaves a whole catalog, and when not.
 */
module Installs {
  import opened Outcome
  import opened Commands
  import opened Stores
  import opened Replays
  import opened ClusterNodes
  import opened ClusterRuns
  import S = Standalone

  /** A snapshot archive: its `catalog.pb`, and a directory for each collection it lists. */
  datatype Archive = Archive(snapshot: Snapshot, dirs: map<Uuid, Dir>)

  /** The archive holds the directories of exactly the collections it lists; `order` is the order they are moved in. */
  ghost predicate Complete(a: Archive, order: seq<Uuid>) {
    && (forall n :: n in a.snapshot.entries ==> a.snapshot.entries[n].uuid in a.dirs)
    && (forall u :: u in a.dirs <==> u in order)
    && (forall i, j :: 0 <= i < j < |order| ==> order[i] != order[j])
    && (forall u :: u in order ==> exists n :: n in a.snapshot.entries && a.snapshot.entries[n].uuid == u)
  }

  /**
   The root's directories after `j` renames: for each uuid in turn the old directory, if any, is
   moved aside, and then the new one is moved in.
   */
  function DirsAt(dirs: map<Uuid, Dir>, a: Archive, order: seq<Uuid>, j: nat): map<Uuid, Dir>
    requires j <= 2 * |order| && forall u :: u in order ==> u in a.dirs
  {
    if j == 0 then dirs
    else
      var u := order[(j - 1) / 2];
      if j % 2 == 1 then DirsAt(dirs, a, order, j - 1) - {u} else DirsAt(dirs, a, order, j - 1)[u := a.dirs[u]]
  }

  /** Reopening this disk succeeds and loads exactly `live`. */
  ghost predicate ReopensAs(p: Snapshot, dirs: map<Uuid, Dir>, live: map<Name, Entry>) {
    exists t :: Reopens(p, dirs, t) && t.live == live
  }

  /** Whatever rename a crash follows, reopening finds the whole old catalog or the whole new one. */
  ghost predicate Atomic(p: Snapshot, dirs: map<Uuid, Dir>, a: Archive, order: seq<Uuid>, before: map<Name, Entry>, after: map<Name, Entry>)
    requires Complete(a, order)
  {
    && (forall j :: 0 <= j <= 2 * |order| ==>
          ReopensAs(p, DirsAt(dirs, a, order, j), before) || ReopensAs(p, DirsAt(dirs, a, order, j), after))
    && (ReopensAs(a.snapshot, DirsAt(dirs, a, order, 2 * |order|), before) || ReopensAs(a.snapshot, DirsAt(dirs, a, order, 2 * |order|), after))
  }

  /** The catalog and the archive have a collection directory in common. */
  predicate Shares(p: Snapshot, order: seq<Uuid>) {
    exists n :: n in p.entries && p.entries[n].uuid in order
  }

  // ---------------------------------------------------------------- the directories along the way

  /** Directories the archive does not bring stay as they were. */
  lemma {:induction false} OthersStay(dirs: map<Uuid, Dir>, a: Archive, order: seq<Uuid>, j: nat, u: Uuid)
    requires Complete(a, order) && j <= 2 * |order| && u !in order
    ensures Get(DirsAt(dirs, a, order, j), u) == Get(dirs, u)
  {
    if j > 0 {
      OthersStay(dirs, a, order, j - 1, u);
      assert order[(j - 1) / 2] in order;
    }
  }

  /** Once moved in, a directory stays. */
  lemma {:induction false} MovedIn(dirs: map<Uuid, Dir>, a: Archive, order: seq<Uuid>, j: nat, i: nat)
    requires Complete(a, order) && i < |order| && 2 * i + 2 <= j <= 2 * |order|
    ensures Get(DirsAt(dirs, a, order, j), order[i]) == Some(a.dirs[order[i]])
  {
    assert order[i] in order;
    if j > 2 * i + 2 {
      MovedIn(dirs, a, order, j - 1, i);
      assert (j - 1) / 2 != i;
    }
  }

  /** In between, the directory is missing. */
  lemma MovedAside(dirs: map<Uuid, Dir>, a: Archive, order: seq<Uuid>, i: nat)
    requires Complete(a, order) && i < |order|
    ensures order[i] !in DirsAt(dirs, a, order, 2 * i + 1)
  {
    assert (2 * i + 1 - 1) / 2 == i;
  }

  // ---------------------------------------------------------------- the disks an install passes through

  /** The order has the directory of every collection the archive lists, and no other. */
  ghost predicate MovesAll(a: Archive, order: seq<Uuid>) {
    && (forall n :: n in a.snapshot.entries ==> a.snapshot.entries[n].uuid in a.dirs)
    && forall u :: u in order <==> exists n :: n in a.snapshot.entries && a.snapshot.entries[n].uuid == u
  }

  lemma MovedDirs(a: Archive, order: seq<Uuid>)
    requires MovesAll(a, order)
    ensures forall u :: u in order ==> u in a.dirs
  {
  }

  ghost predicate RenamedTo(dirs: map<Uuid, Dir>, a: Archive, order: seq<Uuid>, d: map<Uuid, Dir>)
    requires forall u :: u in order ==> u in a.dirs
  {
    exists j :: 0 <= j <= 2 * |order| && d == DirsAt(dirs, a, order, j)
  }

  ghost predicate Among(d: map<Uuid, Dir>, more: seq<S.Disk>) {
    exists e :: e in more && e.dirs == d
  }

  /** The disks passed through are those after the renames, all of them, under the old `catalog.pb`. */
  ghost predicate RenamesThrough(dirs: map<Uuid, Dir>, p: Snapshot, a: Archive, order: seq<Uuid>, more: seq<S.Disk>)
    requires forall u :: u in order ==> u in a.dirs
  {
    && (forall e :: e in more ==> e.snapshot == p && RenamedTo(dirs, a, order, e.dirs))
    && forall j :: 0 <= j <= 2 * |order| ==> DirsAt(dirs, a, order, j) == dirs || Among(DirsAt(dirs, a, order, j), more)
  }

  lemma RenamesNone(dirs: map<Uuid, Dir>, p: Snapshot, a: Archive)
    ensures RenamesThrough(dirs, p, a, [], []) && DirsAt(dirs, a, [], 0) == dirs
  {
  }

  /** The first renames are the same in a longer order. */
  lemma {:induction false} DirsAtFirst(dirs: map<Uuid, Dir>, a: Archive, order: seq<Uuid>, u: Uuid, j: nat)
    requires (forall v :: v in order + [u] ==> v in a.dirs) && (forall v :: v in order ==> v in a.dirs) && j <= 2 * |order|
    ensures DirsAt(dirs, a, order + [u], j) == DirsAt(dirs, a, order, j)
  {
    if j > 0 {
      DirsAtFirst(dirs, a, order, u, j - 1);
      assert (order + [u])[(j - 1) / 2] == order[(j - 1) / 2];
    }
  }

  lemma DirsAtLast(dirs: map<Uuid, Dir>, a: Archive, order: seq<Uuid>, u: Uuid)
    requires (forall v :: v in order + [u] ==> v in a.dirs) && (forall v :: v in order ==> v in a.dirs) && u in a.dirs
    ensures var d, k := DirsAt(dirs, a, order, 2 * |order|), 2 * |order|;
            DirsAt(dirs, a, order + [u], k + 1) == d - {u} && DirsAt(dirs, a, order + [u], k + 2) == (d - {u})[u := a.dirs[u]]
  {
    var k := 2 * |order|;
    DirsAtFirst(dirs, a, order, u, k);
    assert (k + 1 - 1) / 2 == |order| && (k + 2 - 1) / 2 == |order| && (k + 1) % 2 == 1 && (k + 2) % 2 == 0;
    assert (order + [u])[|order|] == u;
  }

  /** One collection more: its old directory, if there is one, is moved aside, and then the new one in. */
  lemma RenamesNext(dirs: map<Uuid, Dir>, p: Snapshot, a: Archive, order: seq<Uuid>, more: seq<S.Disk>, u: Uuid, w: S.WalImage, extra: seq<S.Disk>)
    requires (forall v :: v in order ==> v in a.dirs) && u in a.dirs && RenamesThrough(dirs, p, a, order, more)
    requires var d := DirsAt(dirs, a, order, 2 * |order|);
             extra == (if u in d then [S.Disk(d - {u}, p, w)] else []) + [S.Disk((d - {u})[u := a.dirs[u]], p, w)]
    ensures forall v :: v in order + [u] ==> v in a.dirs
    ensures RenamesThrough(dirs, p, a, order + [u], more + extra)
    ensures var d := DirsAt(dirs, a, order, 2 * |order|); DirsAt(dirs, a, order + [u], 2 * |order + [u]|) == (d - {u})[u := a.dirs[u]]
  {
    hide DirsAt, RenamedTo, Among;
    var longer, k, d := order + [u], 2 * |order|, DirsAt(dirs, a, order, 2 * |order|);
    DirsAtLast(dirs, a, order, u);
    forall e | e in more + extra ensures e.snapshot == p && RenamedTo(dirs, a, longer, e.dirs) {
      RenamedLater(dirs, a, order, u, e.dirs);
    }
    forall j | 0 <= j <= 2 * |longer| ensures DirsAt(dirs, a, longer, j) == dirs || Among(DirsAt(dirs, a, longer, j), more + extra) {
      RenameShown(dirs, p, a, order, more, u, w, extra, j);
    }
  }

  lemma RenamedLater(dirs: map<Uuid, Dir>, a: Archive, order: seq<Uuid>, u: Uuid, d: map<Uuid, Dir>)
    requires (forall v :: v in order ==> v in a.dirs) && (forall v :: v in order + [u] ==> v in a.dirs) && u in a.dirs
    requires var last := DirsAt(dirs, a, order, 2 * |order|);
             RenamedTo(dirs, a, order, d) || d == last - {u} || d == (last - {u})[u := a.dirs[u]]
    ensures RenamedTo(dirs, a, order + [u], d)
  {
    hide DirsAt;
    var longer, k := order + [u], 2 * |order|;
    DirsAtLast(dirs, a, order, u);
    if RenamedTo(dirs, a, order, d) {
      var j :| 0 <= j <= k && d == DirsAt(dirs, a, order, j);
      DirsAtFirst(dirs, a, order, u, j);
    } else {
      assert d == DirsAt(dirs, a, longer, k + 1) || d == DirsAt(dirs, a, longer, k + 2);
    }
  }

  lemma RenameShown(dirs: map<Uuid, Dir>, p: Snapshot, a: Archive, order: seq<Uuid>, more: seq<S.Disk>, u: Uuid, w: S.WalImage, extra: seq<S.Disk>, j: nat)
    requires (forall v :: v in order ==> v in a.dirs) && (forall v :: v in order + [u] ==> v in a.dirs) && u in a.dirs && RenamesThrough(dirs, p, a, order, more)
    requires var d := DirsAt(dirs, a, order, 2 * |order|);
             extra == (if u in d then [S.Disk(d - {u}, p, w)] else []) + [S.Disk((d - {u})[u := a.dirs[u]], p, w)]
    requires j <= 2 * |order + [u]|
    ensures DirsAt(dirs, a, order + [u], j) == dirs || Among(DirsAt(dirs, a, order + [u], j), more + extra)
  {
    hide DirsAt, RenamedTo;
    var longer, k, d := order + [u], 2 * |order|, DirsAt(dirs, a, order, 2 * |order|);
    DirsAtLast(dirs, a, order, u);
    if j <= k || (j == k + 1 && u !in d) {
      assert u !in d ==> d - {u} == d;
      var i := if j <= k then j else k;
      DirsAtFirst(dirs, a, order, u, i);
      assert DirsAt(dirs, a, order, i) == dirs || Among(DirsAt(dirs, a, order, i), more);
      if e :| e in more && e.dirs == DirsAt(dirs, a, order, i) {
        assert e in more + extra;
      }
    } else {
      var e := if j == k + 1 then extra[0] else extra[|extra| - 1];
      assert e in extra && e in more + extra;
    }
  }

  // ---------------------------------------------------------------- reopening along the way

  /** A disk that has every listed directory as `live` found it reopens as `live`. */
  lemma ReopensLike(p: Snapshot, dirs: map<Uuid, Dir>, dirs': map<Uuid, Dir>, live: map<Name, Entry>)
    requires Loads(p.entries, dirs, live)
    requires forall n :: n in p.entries ==> Get(dirs', p.entries[n].uuid) == Get(dirs, p.entries[n].uuid)
    ensures ReopensAs(p, dirs', live)
  {
    var kept := dirs' - (dirs'.Keys - LiveUuids(live));
    var t := Store(live, kept);
    forall n | n in p.entries ensures p.entries[n].uuid in dirs' && dirs'[p.entries[n].uuid] == dirs[p.entries[n].uuid] {
      assert Get(dirs', p.entries[n].uuid) == Get(dirs, p.entries[n].uuid);
    }
    assert Loads(p.entries, dirs', live);
    forall n | n in p.entries ensures p.entries[n].uuid in kept && kept[p.entries[n].uuid] == dirs'[p.entries[n].uuid] {
      assert live[n].uuid == p.entries[n].uuid && live[n].uuid in LiveUuids(live);
    }
    assert Reopens(p, dirs', t);
  }

  /**
   Install atomicity, exactly: a crash anywhere inside an install leaves a whole catalog if and
   only if the archive has no collection directory in common with the catalog it replaces.
   */
  lemma InstallAtomicIff(p: Snapshot, dirs: map<Uuid, Dir>, a: Archive, order: seq<Uuid>, before: map<Name, Entry>, after: map<Name, Entry>)
    requires Complete(a, order) && Loads(p.entries, dirs, before) && Loads(a.snapshot.entries, a.dirs, after)
    ensures Atomic(p, dirs, a, order, before, after) <==> !Shares(p, order)
  {
    if Shares(p, order) {
      var j := SharedIsLost(p, dirs, a, order);
      hide DirsAt, Reopens;
      assert !ReopensAs(p, DirsAt(dirs, a, order, j), before) && !ReopensAs(p, DirsAt(dirs, a, order, j), after);
    } else {
      forall j | 0 <= j <= 2 * |order| ensures ReopensAs(p, DirsAt(dirs, a, order, j), before) {
        forall n | n in p.entries ensures Get(DirsAt(dirs, a, order, j), p.entries[n].uuid) == Get(dirs, p.entries[n].uuid) {
          OthersStay(dirs, a, order, j, p.entries[n].uuid);
        }
        ReopensLike(p, dirs, DirsAt(dirs, a, order, j), before);
      }
      RenamedIsNew(dirs, a, order, after);
    }
  }

  /** After the last rename the new catalog is whole, whatever was shared. */
  lemma RenamedIsNew(dirs: map<Uuid, Dir>, a: Archive, order: seq<Uuid>, after: map<Name, Entry>)
    requires Complete(a, order) && Loads(a.snapshot.entries, a.dirs, after)
    ensures ReopensAs(a.snapshot, DirsAt(dirs, a, order, 2 * |order|), after)
  {
    var last := DirsAt(dirs, a, order, 2 * |order|);
    forall n | n in a.snapshot.entries ensures Get(last, a.snapshot.entries[n].uuid) == Get(a.dirs, a.snapshot.entries[n].uuid) {
      var i :| 0 <= i < |order| && order[i] == a.snapshot.entries[n].uuid;
      MovedIn(dirs, a, order, 2 * |order|, i);
    }
    ReopensLike(a.snapshot, a.dirs, last, after);
  }

  /** With a directory in common, a crash between its two renames leaves a catalog that cannot be opened at all. */
  lemma SharedIsLost(p: Snapshot, dirs: map<Uuid, Dir>, a: Archive, order: seq<Uuid>) returns (j: nat)
    requires Complete(a, order) && Shares(p, order)
    ensures j <= 2 * |order| && Unopenable(p, DirsAt(dirs, a, order, j))
  {
    var n :| n in p.entries && p.entries[n].uuid in order;
    var i :| 0 <= i < |order| && order[i] == p.entries[n].uuid;
    MovedAside(dirs, a, order, i);
    j := 2 * i + 1;
    MissingDir(p, DirsAt(dirs, a, order, j), n);
  }

  ghost predicate Unopenable(p: Snapshot, dirs: map<Uuid, Dir>) {
    forall t :: !Reopens(p, dirs, t)
  }

  lemma MissingDir(p: Snapshot, dirs: map<Uuid, Dir>, n: Name)
    requires n in p.entries && p.entries[n].uuid !in dirs
    ensures Unopenable(p, dirs)
  {
  }

  // ---------------------------------------------------------------- replicas

  /** The archive a node builds: its catalog, and the directories of its collections. */
  function ArchiveOf(v: Node): Archive {
    Archive(v.snapshot, v.store.dirs)
  }

  /** `order` has every directory of the archive once. */
  ghost predicate Enumerates(order: seq<Uuid>, dirs: map<Uuid, Dir>) {
    (forall u :: u in dirs <==> u in order) && forall i, j :: 0 <= i < j < |order| ==> order[i] != order[j]
  }

  lemma ArchiveComplete(v: Node, log: Log, order: seq<Uuid>)
    requires Inv(v, log) && Enumerates(order, v.store.dirs)
    ensures Complete(ArchiveOf(v), order)
  {
    forall u | u in order ensures exists n :: n in v.snapshot.entries && v.snapshot.entries[n].uuid == u {
      var n :| n in v.store.live && v.store.live[n].uuid == u;
      assert v.snapshot.entries[n] == IdentityOf(v.store.live[n]);
    }
  }

  /** Both nodes have the collection, made by the same create. */
  predicate CommonInstance(v: Node, w: Node, n: Name) {
    n in v.store.live && n in w.store.live && v.store.live[n].createdSeq == w.store.live[n].createdSeq
  }

  /** A uuid names one create, so one collection. */
  lemma SameUuid(s: Store, t: Store, log: Log, n: Name, n': Name)
    requires DistinctUuids(log) && Owned(s, log) && Owned(t, log) && n in s.live && n' in t.live
    ensures s.live[n].uuid == t.live[n'].uuid <==> n == n' && s.live[n].createdSeq == t.live[n'].createdSeq
  {
    var i, j := s.live[n].createdSeq - 1, t.live[n'].createdSeq - 1;
    assert log[i].Create? && log[j].Create?;
  }

  /** A directory in common is an instance in common: uuids are never reused. */
  lemma SharesIff(v: Node, w: Node, log: Log, order: seq<Uuid>)
    requires DistinctUuids(log) && Inv(v, log) && Inv(w, log) && Enumerates(order, v.store.dirs)
    ensures Shares(w.snapshot, order) <==> exists n :: CommonInstance(v, w, n)
  {
    hide Ready, AllFresh, DistinctUuids, Owned;
    if Shares(w.snapshot, order) {
      var n :| n in w.snapshot.entries && w.snapshot.entries[n].uuid in order;
      assert w.snapshot.entries[n] == IdentityOf(w.store.live[n]);
      var n' :| n' in v.store.live && v.store.live[n'].uuid == w.store.live[n].uuid;
      SameUuid(v.store, w.store, log, n', n);
      assert CommonInstance(v, w, n);
    }
    if n :| CommonInstance(v, w, n) {
      assert w.snapshot.entries[n] == IdentityOf(w.store.live[n]);
      SameUuid(v.store, w.store, log, n, n);
    }
  }

  /**
   Installing one replica's archive on another survives a crash at every rename if and only if the
   two have no collection in common.
   */
  lemma ReplicaInstallIff(v: Node, w: Node, log: Log, order: seq<Uuid>, before: map<Name, Entry>, after: map<Name, Entry>)
    requires DistinctUuids(log) && Inv(v, log) && Inv(w, log) && Enumerates(order, v.store.dirs)
    requires Loads(w.snapshot.entries, w.store.dirs, before) && Loads(v.snapshot.entries, v.store.dirs, after)
    ensures Complete(ArchiveOf(v), order)
    ensures Atomic(w.snapshot, w.store.dirs, ArchiveOf(v), order, before, after) <==> !exists n :: CommonInstance(v, w, n)
  {
    hide Inv, Atomic, Shares;
    ArchiveComplete(v, log, order);
    SharesIff(v, w, log, order);
    InstallAtomicIff(w.snapshot, w.store.dirs, ArchiveOf(v), order, before, after);
  }

  /** Nodes that have applied all they ever saw share every collection that lives through what separates them. */
  lemma CaughtUpReplicasShare(v: Node, w: Node, log: Log, n: Name)
    requires DistinctUuids(log) && Inv(v, log) && Inv(w, log)
    requires v.applied == v.high && w.applied == w.high && v.high <= w.high
    requires n in Fold(log, v.high) && NoDrop(log, n, v.high, w.high)
    ensures CommonInstance(v, w, n)
  {
    ReadyIsExact(v.store, log, v.high);
    ReadyIsExact(w.store, log, w.high);
    FoldKeeps(log, n, v.high, w.high);
    assert CollOf(v.store.live[n]) == Fold(log, v.high)[n] && CollOf(w.store.live[n]) == Fold(log, w.high)[n];
  }
}
