/**
 Whole runs of a cluster: restarts, snapshots and installs on top of the node invariant, and what
 holds in every reachable state.
 */
module ClusterRuns {
  import opened Outcome
  import opened Documents
  import opened Commands
  import opened Stores
  import opened Replays
  import opened ClusterNodes

  // ---------------------------------------------------------------- reopening

  /** The entries `open` or `rebuild` loads, each with its committed documents. */
  predicate Loads(entries: map<Name, SnapshotEntry>, dirs: map<Uuid, Dir>, live: map<Name, Entry>) {
    live.Keys == entries.Keys &&
    forall n :: n in entries ==> entries[n].uuid in dirs && live[n] == OpenEntry(entries[n], dirs)
  }

  /** `t` is what `Catalog::open` makes of the disk when there is no write-ahead log. */
  predicate Reopens(p: Snapshot, dirs: map<Uuid, Dir>, t: Store) {
    Loads(p.entries, dirs, t.live) && Sweeps(Store(t.live, dirs), t)
  }

  /**
   The index `applied_log_id` reports: the least commit mark, or `fallback` when there are no
   collections. After a restart the fallback is 0: nothing applied yet.
   */
  ghost predicate Reported(s: Store, r: nat, fallback: nat) {
    if s.live.Keys == {} then r == fallback
    else (exists n :: n in s.live && MarkIndex(s, n) == r) && forall n :: n in s.live ==> r <= MarkIndex(s, n)
  }

  /** Every collection live at `hi` and created at or below `r` is in the catalog. */
  predicate Covers(s: Store, log: Log, r: nat, hi: nat)
    requires hi <= |log|
  {
    forall n :: n in Fold(log, hi) && Fold(log, hi)[n].created <= r ==> n in s.live
  }

  lemma ReportedBound(s: Store, log: Log, k: nat, hi: nat, r: nat, fallback: nat)
    requires Core(s, log, k, hi) && Reported(s, r, fallback) && fallback <= hi
    ensures r <= hi && forall n :: n in s.live ==> r <= MarkIndex(s, n)
  {
    if s.live.Keys != {} {
      var n :| n in s.live && MarkIndex(s, n) == r;
      assert Fresh(s, log, k, hi, n);
    }
  }

  /** `t` is `s` with every buffer set back to the committed documents. */
  predicate Rewound(s: Store, t: Store) {
    && t.dirs == s.dirs && t.live.Keys == s.live.Keys
    && forall n :: n in s.live ==>
         s.live[n].uuid in s.dirs && t.live[n] == s.live[n].(buffer := s.dirs[s.live[n].uuid].docs)
  }

  /** Reopening a node's disk gives its own store back, buffers aside. */
  lemma ReopenRewinds(s: Store, p: Snapshot, t: Store)
    requires DirsMatchLive(s) && Lists(p.entries, s.live) && Reopens(p, s.dirs, t)
    ensures Rewound(s, t) && Lists(p.entries, t.live)
  {
    forall n | n in s.live ensures p.entries[n] == IdentityOf(s.live[n]) { }
    assert LiveUuids(t.live) == LiveUuids(s.live) by {
      forall n | n in s.live ensures t.live[n].uuid == s.live[n].uuid { }
    }
    assert t.dirs.Keys == s.dirs.Keys;
  }

  /** `open` never refuses a node's disk for want of a directory. */
  lemma ReopenPossible(s: Store, p: Snapshot)
    requires DirsMatchLive(s) && Lists(p.entries, s.live)
    ensures exists t :: Reopens(p, s.dirs, t)
  {
    forall n | n in p.entries ensures p.entries[n].uuid in s.dirs {
      assert p.entries[n].uuid == s.live[n].uuid && s.live[n].uuid in LiveUuids(s.live);
    }
    var live := map n | n in p.entries :: OpenEntry(p.entries[n], s.dirs);
    var t := Store(live, s.dirs);
    assert LiveUuids(live) == s.dirs.Keys by {
      forall n | n in s.live ensures live[n].uuid == s.live[n].uuid { }
    }
    assert Reopens(p, s.dirs, t);
  }

  lemma RewoundShape(s: Store, t: Store, log: Log, hi: nat)
    requires Rewound(s, t) && Shape(s, log, hi)
    ensures Shape(t, log, hi)
  {
    assert LiveUuids(t.live) == LiveUuids(s.live) by {
      forall n | n in s.live ensures t.live[n].uuid == s.live[n].uuid { }
    }
  }

  lemma RewoundFresh(s: Store, t: Store, log: Log, k: nat, r: nat, hi: nat, n: Name)
    requires k <= hi <= |log| && r <= hi && Rewound(s, t) && n in s.live && s.live[n].uuid in s.dirs
    requires Fresh(s, log, k, hi, n) && r <= MarkIndex(s, n)
    ensures Fresh(t, log, r, hi, n)
  {
    var m := MarkIndex(s, n);
    assert MarkIndex(t, n) == m;
    assert NoDrop(log, n, m, hi) ==> NoDrop(log, n, Max(k, m), hi);
    assert NoDrop(log, n, r, hi) ==> NoDrop(log, n, m, hi);
  }

  /** Fresh committed contents are ready contents: the entry replay restarts from is fit. */
  lemma FreshIsReady(t: Store, log: Log, r: nat, hi: nat, n: Name)
    requires r <= hi <= |log| && WellFormed(log) && DirsMatchLive(t)
    requires n in t.live ==> t.live[n].uuid in t.dirs && Fresh(t, log, r, hi, n) && r <= MarkIndex(t, n)
    requires Covers(t, log, r, hi)
    ensures ReadyName(t, log, r, hi, n)
  {
    if NoDrop(log, n, r, hi) {
      if n in Fold(log, r) {
        FoldKeeps(log, n, r, hi);
        FoldOwner(log, r, n);
      }
      if n in t.live {
        var m := MarkIndex(t, n);
        assert NoDrop(log, n, Max(r, m), hi);
        CaughtUpIsSettled(log, n, t.live[n].uuid, t.live[n].buffer, Max(r, m), hi);
      }
    }
  }

  lemma RewoundAll(s: Store, t: Store, log: Log, k: nat, r: nat, hi: nat)
    requires k <= hi <= |log| && r <= hi && WellFormed(log) && Rewound(s, t)
    requires Owned(s, log) && Owned(t, log) && DirsMatchLive(t) && AllFresh(s, log, k, hi)
    requires Covers(s, log, r, hi) && forall n :: n in s.live ==> r <= MarkIndex(s, n)
    ensures Ready(t, log, r, hi) && AllFresh(t, log, r, hi)
  {
    forall n | n in t.live ensures Fresh(t, log, r, hi, n) {
      assert Fresh(s, log, k, hi, n);
      RewoundFresh(s, t, log, k, r, hi, n);
    }
    forall n ensures ReadyName(t, log, r, hi, n) {
      assert n in t.live ==> MarkIndex(t, n) == MarkIndex(s, n);
      FreshIsReady(t, log, r, hi, n);
    }
  }

  /** A restart that covers the log leaves a node fit to replay from the reported point. */
  lemma RestartKeeps(v: Node, log: Log, r: nat, t: Store)
    requires Inv(v, log) && WellFormed(log) && r <= v.high && Covers(v.store, log, r, v.high)
    requires forall n :: n in v.store.live ==> r <= MarkIndex(v.store, n)
    requires Reopens(v.snapshot, v.store.dirs, t)
    ensures Inv(Node(t, v.snapshot, r, v.high), log)
  {
    ReopenRewinds(v.store, v.snapshot, t);
    RewoundShape(v.store, t, log, v.high);
    RewoundAll(v.store, t, log, v.applied, r, v.high);
  }

  /** A node that is not replaying shows the fold, and so covers the log whatever it reports. */
  lemma AppliedCovers(s: Store, log: Log, hi: nat, r: nat)
    requires Core(s, log, hi, hi) && DistinctUuids(log)
    ensures Shows(s.live, Fold(log, hi)) && Covers(s, log, r, hi)
  {
    ReadyIsExact(s, log, hi);
  }

  // ---------------------------------------------------------------- restart

  /**
   Restart, at any moment: replaying everything above the reported applied point, up to the highest
   position ever applied, ends in the fold of the log if and only if the persisted catalog covers
   the log up to that point. DDL already ahead of the replay, dropped and recreated names and
   lagging marks are all allowed.
   */
  lemma RestartConvergesIff(v: Node, log: Log, r: nat, t: Store)
    requires Inv(v, log) && WellFormed(log) && Reported(v.store, r, 0) && Reopens(v.snapshot, v.store.dirs, t)
    ensures r <= v.high
    ensures var result := Replay(t, log, r, v.high);
            result.Ok? ==> (Shows(result.value.live, Fold(log, v.high)) <==> Covers(v.store, log, r, v.high))
  {
    ReportedBound(v.store, log, v.applied, v.high, r, 0);
    if Replay(t, log, r, v.high).Fail? {
      return;
    }
    ReopenRewinds(v.store, v.snapshot, t);
    RewoundShape(v.store, t, log, v.high);
    ReplayConvergesIff(t, log, r, v.high);
    if Covers(v.store, log, r, v.high) {
      RestartKeeps(v, log, r, t);
    }
    if Ready(t, log, r, v.high) {
      forall n | n in Fold(log, v.high) && Fold(log, v.high)[n].created <= r ensures n in v.store.live {
        FoldSince(log, n, r, v.high);
        assert ReadyName(t, log, r, v.high, n);
      }
    }
  }

  /** A node restarted while no replay was in progress always converges, if its replay succeeds. */
  lemma RestartConverges(v: Node, log: Log, r: nat, t: Store)
    requires Inv(v, log) && WellFormed(log) && v.applied == v.high
    requires Reported(v.store, r, 0) && Reopens(v.snapshot, v.store.dirs, t)
    ensures r <= v.high
    ensures var result := Replay(t, log, r, v.high);
            result.Ok? ==> Shows(result.value.live, Fold(log, v.high)) && Shows(v.store.live, Fold(log, v.high))
  {
    AppliedCovers(v.store, log, v.high, r);
    RestartConvergesIff(v, log, r, t);
  }

  // ---------------------------------------------------------------- stray documents

  /** The last of the touches still to come. */
  lemma {:induction false} LastTouch(log: Log, n: Name, id: Id, lo: nat, hi: nat) returns (i: nat)
    requires lo <= hi <= |log| && !Untouched(log, n, id, lo, hi)
    ensures lo <= i < hi && Touches(log[i], n, id) && Untouched(log, n, id, i + 1, hi)
    decreases hi
  {
    if Touches(log[hi - 1], n, id) {
      i := hi - 1;
    } else {
      i := LastTouch(log, n, id, lo, hi - 1);
    }
  }

  /**
   The last command for `id` above the mark is an index from before the collection was created: it
   had no effect when it was first applied, and the replay will not skip it.
   */
  predicate StrayLast(s: Store, log: Log, hi: nat, n: Name, id: Id)
    requires hi <= |log| && n in s.live
  {
    exists i :: MarkIndex(s, n) <= i < hi && i + 1 < s.live[n].createdSeq && log[i].Index? && Touches(log[i], n, id) &&
      Untouched(log, n, id, i + 1, hi)
  }

  /** A touch of a live collection takes effect. */
  lemma TouchTakes(log: Log, n: Name, id: Id, i: nat)
    requires i < |log| && n in Fold(log, i) && Touches(log[i], n, id)
    ensures n in Fold(log, i + 1) && DocAt(log, i + 1, n, id) == After(log[i], n, id, None)
  {
  }

  lemma StrayIffUnsettled(s: Store, log: Log, hi: nat, n: Name, id: Id, v: Option<Source>)
    requires hi <= |log| && DistinctUuids(log) && n in s.live && n in Fold(log, hi)
    requires s.live[n].uuid == Fold(log, hi)[n].uuid && s.live[n].createdSeq == Fold(log, hi)[n].created && MarkIndex(s, n) <= hi
    requires Caught(log, n, s.live[n].uuid, id, v, MarkIndex(s, n), hi)
    ensures Settled(log, n, id, v, MarkIndex(s, n), hi) <==> !StrayLast(s, log, hi, n, id)
  {
    hide Fold;
    var m, c := MarkIndex(s, n), Fold(log, hi)[n].created;
    FoldOwner(log, hi, n);
    if Untouched(log, n, id, m, hi) {
      TouchedNever(log, n, id, v, m, hi);
      CaughtIsFinal(log, n, s.live[n].uuid, id, v, m, hi);
    } else {
      var i := LastTouch(log, n, id, m, hi);
      TouchedSplit(log, n, id, v, m, i + 1, hi);
      TouchedNever(log, n, id, Touched(log, n, id, v, m, i + 1), i + 1, hi);
      if c <= i {
        FoldSince(log, n, i, hi);
        TouchTakes(log, n, id, i);
        FoldUntouched(log, n, id, i + 1, hi);
      } else {
        FoldSince(log, n, c, hi);
        BornEmpty(log, n, c);
        FoldUntouched(log, n, id, c, hi);
      }
    }
  }

  /**
   Restart over any log, also one with document commands for collections that were gone when they
   were committed: outside replay, a restart that succeeds converges if and only if no collection
   that survives the replay has a document whose last command above the mark is a stray index.
   */
  lemma RestartStrayIff(v: Node, log: Log, r: nat, t: Store)
    requires Inv(v, log) && DistinctUuids(log) && v.applied == v.high
    requires Reported(v.store, r, 0) && Reopens(v.snapshot, v.store.dirs, t)
    ensures r <= v.high
    ensures var result := Replay(t, log, r, v.high);
            result.Ok? ==>
              (Shows(result.value.live, Fold(log, v.high)) <==>
                 forall n, id {:trigger StrayLast(v.store, log, v.high, n, id)} ::
                   n in v.store.live && NoDrop(log, n, r, v.high) ==> !StrayLast(v.store, log, v.high, n, id))
  {
    var s, hi := v.store, v.high;
    ReportedBound(s, log, hi, hi, r, 0);
    if Replay(t, log, r, hi).Fail? {
      return;
    }
    ReopenRewinds(s, v.snapshot, t);
    RewoundShape(s, t, log, hi);
    hide Replay, Fold, Reopens, Rewound, Shows, StrayLast, Lists;
    ReplayConvergesIff(t, log, r, hi);
    ReadyIsExact(s, log, hi);
    if Ready(t, log, r, hi) {
      forall n, id | n in s.live && NoDrop(log, n, r, hi) ensures !StrayLast(s, log, hi, n, id) {
        assert ReadyName(t, log, r, hi, n);
        StrayFacts(s, t, log, r, hi, n);
        StrayIffUnsettled(s, log, hi, n, id, Get(t.live[n].buffer, id));
      }
    }
    if forall n, id :: n in s.live && NoDrop(log, n, r, hi) ==> !StrayLast(s, log, hi, n, id) {
      forall n ensures ReadyName(t, log, r, hi, n) {
        NoStrayReady(s, t, log, r, hi, n);
      }
    }
  }

  /** What a caught-up node knows of a collection it reopens. */
  lemma StrayFacts(s: Store, t: Store, log: Log, r: nat, hi: nat, n: Name)
    requires Core(s, log, hi, hi) && Exact(s, log, hi) && Rewound(s, t) && n in s.live && r <= MarkIndex(s, n)
    ensures n in Fold(log, hi) && s.live[n].uuid == Fold(log, hi)[n].uuid && s.live[n].createdSeq == Fold(log, hi)[n].created
    ensures MarkIndex(t, n) == MarkIndex(s, n) == Max(r, MarkIndex(s, n)) <= hi && n in t.live && t.live[n].uuid == s.live[n].uuid
    ensures forall id :: Caught(log, n, s.live[n].uuid, id, Get(t.live[n].buffer, id), MarkIndex(s, n), hi)
  {
    assert CollOf(s.live[n]) == Fold(log, hi)[n];
    assert Fresh(s, log, hi, hi, n);
    assert CaughtUp(log, n, s.live[n].uuid, t.live[n].buffer, MarkIndex(s, n), hi);
  }

  lemma NoStrayReady(s: Store, t: Store, log: Log, r: nat, hi: nat, n: Name)
    requires Core(s, log, hi, hi) && DistinctUuids(log) && Exact(s, log, hi) && Rewound(s, t) && r <= hi
    requires forall n :: n in s.live ==> r <= MarkIndex(s, n)
    requires forall id :: n in s.live && NoDrop(log, n, r, hi) ==> !StrayLast(s, log, hi, n, id)
    ensures ReadyName(t, log, r, hi, n)
  {
    if n in s.live {
      StrayFacts(s, t, log, r, hi, n);
      assert t.live[n].uuid in LiveUuids(t.live);
      if NoDrop(log, n, r, hi) {
        forall id ensures Settled(log, n, id, Get(t.live[n].buffer, id), MarkIndex(s, n), hi) {
          StrayIffUnsettled(s, log, hi, n, id, Get(t.live[n].buffer, id));
        }
      }
    } else if NoDrop(log, n, r, hi) && n in Fold(log, r) {
      FoldKeeps(log, n, r, hi);
      assert false;
    }
  }

  // ---------------------------------------------------------------- failure

  /** A restarted replay fails exactly when a document meets an entry it was not written for. */
  lemma RestartFailsIff(v: Node, log: Log, r: nat, t: Store)
    requires Inv(v, log) && DistinctUuids(log) && r <= v.high
    requires Reopens(v.snapshot, v.store.dirs, t)
    ensures Replay(t, log, r, v.high).Fail? <==> exists j :: r <= j < v.high && StuckAt(t, log, r, j)
  {
    ReopenRewinds(v.store, v.snapshot, t);
    RewoundShape(v.store, t, log, v.high);
    ReplayFailsIff(t, log, r, v.high);
  }

  // ---------------------------------------------------------------- snapshots

  /** Applying further entries one by one keeps the invariant. */
  lemma {:induction false} ReplayKeeps(s: Store, log: Log, k: nat, hi: nat, upTo: nat)
    requires Core(s, log, k, hi) && WellFormed(log) && k <= upTo <= |log| && Replay(s, log, k, upTo).Ok?
    ensures Core(Replay(s, log, k, upTo).value, log, upTo, Max(hi, upTo))
    decreases upTo
  {
    if k < upTo {
      ReplayKeeps(s, log, k, hi, upTo - 1);
      var t := Replay(s, log, k, upTo - 1).value;
      ApplyKeeps(t, Replay(s, log, k, upTo).value, log, upTo - 1, upTo, Max(hi, upTo - 1));
    }
  }

  /**
   Installing an archive and applying the log above `meta.last_log_id` gives the same catalog as
   applying the whole log, at every position the archive's contents do not exceed; the fallback
   for a catalog without collections included.
   */
  lemma SnapshotEquivalence(v: Node, log: Log, r: nat, t: Store, upTo: nat)
    requires Inv(v, log) && WellFormed(log) && v.applied == v.high && v.high <= upTo <= |log|
    requires Reported(v.store, r, v.applied) && Reopens(v.snapshot, v.store.dirs, t)
    ensures r <= v.high
    ensures var result := Replay(t, log, r, upTo);
            result.Ok? ==> Shows(result.value.live, Fold(log, upTo))
  {
    ReportedBound(v.store, log, v.applied, v.high, r, v.applied);
    if Replay(t, log, r, upTo).Fail? {
      return;
    }
    AppliedCovers(v.store, log, v.high, r);
    RestartKeeps(v, log, r, t);
    ReplayKeeps(t, log, r, v.high, upTo);
    ReadyIsExact(Replay(t, log, r, upTo).value, log, upTo);
  }

  /** Applying the log above an installed archive fails exactly when a document is met by a mapping it does not fit. */
  lemma SnapshotFailsIff(v: Node, log: Log, r: nat, t: Store, upTo: nat)
    requires Inv(v, log) && DistinctUuids(log) && r <= upTo <= |log| && Reopens(v.snapshot, v.store.dirs, t)
    ensures Replay(t, log, r, upTo).Fail? <==> exists j :: r <= j < upTo && StuckAt(t, log, r, j)
  {
    ReopenRewinds(v.store, v.snapshot, t);
    RewoundShape(v.store, t, log, v.high);
    ReplayFailsIff(t, log, r, upTo);
  }

  // ---------------------------------------------------------------- reads

  /** What is searchable in `n` is, for every id, as new as position `lo`. */
  ghost predicate SearchableSince(s: Store, log: Log, n: Name, lo: nat, hi: nat)
    requires hi <= |log| && n in s.live && s.live[n].uuid in s.dirs
  {
    CaughtUp(log, n, s.live[n].uuid, s.dirs[s.live[n].uuid].docs, lo, hi)
  }

  /**
   The reported point is safe: outside replay, every collection's committed contents reflect all
   its commands up to that point, whatever the order of checkpoints and single commits.
   */
  lemma SafeAppliedPoint(s: Store, log: Log, hi: nat, r: nat, n: Name)
    requires Core(s, log, hi, hi) && Reported(s, r, hi) && n in s.live
    ensures s.live[n].uuid in s.dirs && SearchableSince(s, log, n, r, hi)
  {
    assert Fresh(s, log, hi, hi, n);
    var u := s.live[n].uuid;
    CaughtUpLower(log, n, u, s.dirs[u].docs, MarkIndex(s, n), r, hi);
  }

  /** `commit_collection`: commit only if the collection is behind `mark`. */
  function CommitCollection(s: Store, n: Name, mark: LogMark): Store
    requires n in s.live
  {
    if MarkIndex(s, n) < mark.index then CommitOne(s, n, mark) else s
  }

  /**
   Linearizable get: outside replay, after `commit_collection` at an applied mark the committed
   view of every id is at least as new as that mark. The collection's mark never goes back.
   */
  lemma LinearizableGet(s: Store, log: Log, hi: nat, n: Name, mark: LogMark)
    requires Core(s, log, hi, hi) && n in s.live && mark.index <= hi
    ensures var t := CommitCollection(s, n, mark);
            && t.live == s.live && t.live[n].uuid in t.dirs && SearchableSince(t, log, n, mark.index, hi)
            && MarkIndex(t, n) == Max(MarkIndex(s, n), mark.index)
            && t.dirs == (if MarkIndex(s, n) < mark.index then s.dirs[s.live[n].uuid := Dir(s.live[n].buffer, Some(mark))] else s.dirs)
  {
    var u := s.live[n].uuid;
    assert Fresh(s, log, hi, hi, n);
    if MarkIndex(s, n) < mark.index {
      CommitKeeps(s, log, hi, hi, n, mark);
      assert Fresh(CommitOne(s, n, mark), log, hi, hi, n);
    } else {
      CaughtUpLower(log, n, u, s.dirs[u].docs, MarkIndex(s, n), mark.index, hi);
    }
  }

  // ---------------------------------------------------------------- runs

  /** Any number of nodes over one committed log, and the snapshot archives built so far. */
  datatype System = System(nodes: seq<Node>, archives: seq<Node>)

  /** Applying the next log entry; a failed command stops the node instead. */
  predicate ApplyStep(log: Log, v: Node, w: Node) {
    && v.applied < |log| && w.applied == v.applied + 1 && w.high == Max(v.high, w.applied)
    && ApplyCommand(v.store, w.applied, log[v.applied]) == Ok(w.store)
    && PersistsTo(v.snapshot, v.store, w.applied, log[v.applied], w.store, w.snapshot)
  }

  /** A commit of one collection, by a checkpoint or a read, at a mark the node has applied. */
  predicate CommitStep(v: Node, w: Node, n: Name, mark: LogMark) {
    n in v.store.live && mark.index <= v.applied && w == v.(store := CommitOne(v.store, n, mark))
  }

  /** The end of a checkpoint: `catalog.pb` rewritten. */
  predicate PersistStep(v: Node, w: Node) {
    w == v.(snapshot := w.snapshot) && Lists(w.snapshot.entries, v.store.live)
  }

  /** A restart after any crash; what it needs from the disk is that the catalog covers the log. */
  ghost predicate RestartStep(log: Log, v: Node, w: Node) {
    && v.high <= |log| && Reported(v.store, w.applied, 0) && Covers(v.store, log, w.applied, v.high)
    && Reopens(v.snapshot, v.store.dirs, w.store) && w.snapshot == v.snapshot && w.high == v.high
  }

  /** A snapshot built from `v`; `archive` is the node its installer becomes. */
  ghost predicate BuildStep(log: Log, v: Node, archive: Node) {
    && v.high <= |log| && Reported(v.store, archive.applied, v.applied) && Covers(v.store, log, archive.applied, v.high)
    && Reopens(v.snapshot, v.store.dirs, archive.store) && archive.snapshot == v.snapshot && archive.high == v.high
  }

  /** A step of one node on its own. */
  ghost predicate NodeStep(log: Log, v: Node, w: Node) {
    ApplyStep(log, v, w) || (exists n, mark :: CommitStep(v, w, n, mark)) || PersistStep(v, w) || RestartStep(log, v, w)
  }

  ghost predicate SystemStep(log: Log, a: System, b: System, i: nat)
    requires i < |a.nodes|
  {
    || (exists w :: NodeStep(log, a.nodes[i], w) && b == a.(nodes := a.nodes[i := w]))
    || (exists archive :: BuildStep(log, a.nodes[i], archive) && b == a.(archives := a.archives + [archive]))
    || (exists j :: 0 <= j < |a.archives| && b == a.(nodes := a.nodes[i := a.archives[j]]))
  }

  ghost predicate Next(log: Log, a: System, b: System) {
    exists i :: 0 <= i < |a.nodes| && SystemStep(log, a, b, i)
  }

  ghost predicate AllInv(log: Log, nodes: seq<Node>) {
    forall v {:trigger Inv(v, log)} :: v in nodes ==> Inv(v, log)
  }

  ghost predicate SystemInv(log: Log, a: System) {
    AllInv(log, a.nodes) && AllInv(log, a.archives)
  }

  lemma NodeStepKeeps(log: Log, v: Node, w: Node)
    requires WellFormed(log) && Inv(v, log) && NodeStep(log, v, w)
    ensures Inv(w, log)
  {
    if ApplyStep(log, v, w) {
      ApplyKeeps(v.store, w.store, log, v.applied, w.applied, v.high);
      ApplyPersists(v.snapshot, v.store, w.applied, log[v.applied], w.store, w.snapshot);
    } else if n, mark :| CommitStep(v, w, n, mark) {
      CommitKeeps(v.store, log, v.applied, v.high, n, mark);
    } else if RestartStep(log, v, w) {
      ReportedBound(v.store, log, v.applied, v.high, w.applied, 0);
      RestartKeeps(v, log, w.applied, w.store);
    }
  }

  lemma UpdateInv(log: Log, nodes: seq<Node>, i: nat, w: Node)
    requires AllInv(log, nodes) && i < |nodes| && Inv(w, log)
    ensures AllInv(log, nodes[i := w])
  {
    forall v | v in nodes[i := w] ensures Inv(v, log) {
      assert v == w || v in nodes;
    }
  }

  lemma AppendInv(log: Log, nodes: seq<Node>, w: Node)
    requires AllInv(log, nodes) && Inv(w, log)
    ensures AllInv(log, nodes + [w])
  {
    forall v | v in nodes + [w] ensures Inv(v, log) {
      assert v == w || v in nodes;
    }
  }

  lemma SystemStepKeeps(log: Log, a: System, b: System)
    requires WellFormed(log) && SystemInv(log, a) && Next(log, a, b)
    ensures SystemInv(log, b)
  {
    var i :| 0 <= i < |a.nodes| && SystemStep(log, a, b, i);
    var v := a.nodes[i];
    assert v in a.nodes && Inv(v, log);
    if w :| NodeStep(log, v, w) && b == a.(nodes := a.nodes[i := w]) {
      NodeStepKeeps(log, v, w);
      UpdateInv(log, a.nodes, i, w);
    } else if archive :| BuildStep(log, v, archive) && b == a.(archives := a.archives + [archive]) {
      ReportedBound(v.store, log, v.applied, v.high, archive.applied, v.applied);
      RestartKeeps(v, log, archive.applied, archive.store);
      AppendInv(log, a.archives, archive);
    } else {
      var j :| 0 <= j < |a.archives| && b == a.(nodes := a.nodes[i := a.archives[j]]);
      assert a.archives[j] in a.archives && Inv(a.archives[j], log);
      UpdateInv(log, a.nodes, i, a.archives[j]);
    }
  }

  ghost predicate IsRun(log: Log, run: seq<System>) {
    && run != [] && run[0].archives == []
    && (forall i :: 0 <= i < |run[0].nodes| ==> run[0].nodes[i] == INITIAL)
    && (forall t :: 0 <= t < |run| - 1 ==> Next(log, run[t], run[t + 1]))
  }

  lemma InitialInv(log: Log)
    ensures Inv(INITIAL, log)
  {
  }

  lemma {:induction false} RunInv(log: Log, run: seq<System>, t: nat)
    requires WellFormed(log) && IsRun(log, run) && t < |run|
    ensures SystemInv(log, run[t])
  {
    if t == 0 {
      InitialInv(log);
    } else {
      RunInv(log, run, t - 1);
      SystemStepKeeps(log, run[t - 1], run[t]);
    }
  }

  /**
   Every run of the cluster, over every well-formed committed log: a node that is not replaying
   shows exactly the fold of the entries it has applied, and its directories are those of its
   live collections.
   */
  lemma EveryRunConverges(log: Log, run: seq<System>, t: nat, i: nat)
    requires WellFormed(log) && IsRun(log, run) && t < |run| && i < |run[t].nodes|
    requires run[t].nodes[i].applied == run[t].nodes[i].high
    ensures run[t].nodes[i].applied <= |log|
    ensures Shows(run[t].nodes[i].store.live, Fold(log, run[t].nodes[i].applied))
    ensures DirsMatchLive(run[t].nodes[i].store)
  {
    RunInv(log, run, t);
    assert Inv(run[t].nodes[i], log);
    ReadyIsExact(run[t].nodes[i].store, log, run[t].nodes[i].applied);
  }

  /** In every run the point a node reports is safe, and its reads at an applied mark are current. */
  lemma EveryRunReadsSafely(log: Log, run: seq<System>, t: nat, i: nat, r: nat, n: Name, mark: LogMark)
    requires WellFormed(log) && IsRun(log, run) && t < |run| && i < |run[t].nodes|
    requires var v := run[t].nodes[i];
             v.applied == v.high && Reported(v.store, r, v.applied) && n in v.store.live && mark.index <= v.applied
    ensures var v := run[t].nodes[i];
            && v.high <= |log|
            && v.store.live[n].uuid in v.store.dirs && SearchableSince(v.store, log, n, r, v.high)
            && var s := CommitCollection(v.store, n, mark);
            s.live[n].uuid in s.dirs && SearchableSince(s, log, n, mark.index, v.high)
  {
    var v := run[t].nodes[i];
    RunInv(log, run, t);
    assert Inv(v, log);
    SafeAppliedPoint(v.store, log, v.high, r, n);
    LinearizableGet(v.store, log, v.high, n, mark);
  }
}
