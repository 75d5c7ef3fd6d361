/**
 What a cluster restart does not promise: each lemma is a concrete log and node, consistent by every
 invariant proved of it, whose restart fails or loses something.
 */
module ClusterFindings {
  import opened Outcome
  import opened Mappings
  import opened Documents
  import opened Commands
  import opened Stores
  import opened Replays
  import opened ClusterNodes
  import C = ClusterRuns
  import I = Installs

  /** A restart of a node with nothing uncommitted finds the same catalog and directories. */
  lemma ReopensSame(v: Node, t: Store)
    requires DirsMatchLive(v.store) && Lists(v.snapshot.entries, v.store.live)
    requires forall n :: n in v.store.live ==> v.store.live[n] == OpenEntry(v.snapshot.entries[n], v.store.dirs)
    requires C.Reopens(v.snapshot, v.store.dirs, t)
    ensures t == v.store
  {
    C.ReopenRewinds(v.store, v.snapshot, t);
    forall n | n in t.live ensures t.live[n] == v.store.live[n] { }
    assert t.live == v.store.live && t.dirs == v.store.dirs;
  }

  // ---------------------------------------------------------------- restarts that fail

  /** A collection is recreated under its old name with another mapping. */
  function Recreated(a: Name, id: Id, src: Source, m: Mapping, m': Mapping): Log {
    [Create(a, 1, m), Index(a, id, src), Drop(a), Create(a, 2, m')]
  }

  /** All four entries applied, nothing committed since. */
  function AfterRecreate(a: Name, m': Mapping): Node {
    Node(Store(map[a := Entry(2, 4, m', map[])], map[2 := Dir(map[], None)]), Snapshot(4, map[a := SnapshotEntry(2, 4, m')]), 4, 4)
  }

  lemma AfterRecreateFolds(a: Name, id: Id, src: Source, m: Mapping, m': Mapping)
    requires Buildable(m, src)
    ensures var log := Recreated(a, id, src, m, m');
            WellFormed(log) && Fold(log, 0) == map[] && Fold(log, 4) == map[a := Coll(2, 4, m', map[])]
  {
    var log := Recreated(a, id, src, m, m');
    assert Fold(log, 0) == map[];
    assert Fold(log, 1) == map[a := Coll(1, 1, m, map[])];
    assert Fold(log, 2) == map[a := Coll(1, 1, m, map[id := src])];
    assert Fold(log, 3) == map[];
    assert Fold(log, 4) == map[a := Coll(2, 4, m', map[])];
    forall k | 0 <= k < 4 ensures Admitted(log, k) { }
  }

  lemma AfterRecreateOk(a: Name, id: Id, src: Source, m: Mapping, m': Mapping)
    requires Buildable(m, src)
    ensures var log, v := Recreated(a, id, src, m, m'), AfterRecreate(a, m');
            WellFormed(log) && Inv(v, log) && C.Reported(v.store, 0, 0)
  {
    var log, v := Recreated(a, id, src, m, m'), AfterRecreate(a, m');
    hide Fold;
    AfterRecreateFolds(a, id, src, m, m');
    assert MarkIndex(v.store, a) == 0;
    EmptyCaughtUp(log, a, 2, 0, 4);
    assert LiveUuids(v.store.live) == {2} by {
      assert v.store.live[a].uuid == 2;
    }
    CaughtUpCore(v.store, log, 4);
  }

  /**
   A restart can fail for good: the node was consistent, replay meets the old document, finds the
   new collection under its name, and cannot build it. Nothing on disk has changed by then, so the
   next restart meets the same.
   */
  lemma RestartCanFail(a: Name, id: Id, src: Source, m: Mapping, m': Mapping, t: Store)
    requires Buildable(m, src) && !Buildable(m', src) && C.Reopens(AfterRecreate(a, m').snapshot, AfterRecreate(a, m').store.dirs, t)
    ensures var log, v := Recreated(a, id, src, m, m'), AfterRecreate(a, m');
            && WellFormed(log) && Inv(v, log) && C.Reported(v.store, 0, 0)
            && t.dirs == v.store.dirs && Replay(t, log, 0, 1) == Ok(t)
            && Replay(t, log, 0, 2) == Fail(BadDocument(a, id)) && Replay(t, log, 0, 4).Fail? && StuckAt(t, log, 0, 1)
  {
    var log, v := Recreated(a, id, src, m, m'), AfterRecreate(a, m');
    AfterRecreateOk(a, id, src, m, m');
    AfterRecreateReplay(a, id, src, m, m');
    ReopensSame(v, t);
  }

  lemma AfterRecreateReplay(a: Name, id: Id, src: Source, m: Mapping, m': Mapping)
    requires Buildable(m, src) && !Buildable(m', src)
    ensures var log, t := Recreated(a, id, src, m, m'), AfterRecreate(a, m').store;
            && Replay(t, log, 0, 1) == Ok(t) && Replay(t, log, 0, 2) == Fail(BadDocument(a, id)) && Replay(t, log, 0, 4).Fail?
            && StuckAt(t, log, 0, 1)
  {
    var log, t := Recreated(a, id, src, m, m'), AfterRecreate(a, m').store;
    hide Fold;
    assert MarkIndex(t, a) == 0;
    assert Replay(t, log, 0, 0) == Ok(t);
    assert Replay(t, log, 0, 1) == ApplyCommand(t, 1, log[0]) == Ok(t);
    assert Replay(t, log, 0, 2) == ApplyCommand(t, 2, log[1]) == Fail(BadDocument(a, id));
    assert Replay(t, log, 0, 3).Fail?;
  }

  /** A create was committed over a live collection of another mapping, which was then used and dropped. */
  function Overruled(a: Name, b: Name, id: Id, src: Source, m: Mapping, m': Mapping): Log {
    [Create(b, 1, m), Create(a, 2, m), Create(a, 3, m'), Index(a, id, src), Drop(a)]
  }

  /** All five entries applied; the surviving collection was committed at 2. */
  function AfterOverruled(b: Name, m: Mapping): Node {
    Node(Store(map[b := Entry(1, 1, m, map[])], map[1 := Dir(map[], Some(LogMark(0, 0, 2)))]), Snapshot(5, map[b := SnapshotEntry(1, 1, m)]), 5, 5)
  }

  lemma AfterOverruledFolds(a: Name, b: Name, id: Id, src: Source, m: Mapping, m': Mapping)
    requires a != b && Buildable(m, src)
    ensures var log := Overruled(a, b, id, src, m, m');
            && WellFormed(log) && Fold(log, 2) == map[b := Coll(1, 1, m, map[]), a := Coll(2, 2, m, map[])]
            && Fold(log, 5) == map[b := Coll(1, 1, m, map[])]
  {
    var log := Overruled(a, b, id, src, m, m');
    assert Fold(log, 0) == map[];
    assert Fold(log, 1) == map[b := Coll(1, 1, m, map[])];
    assert Fold(log, 2) == map[b := Coll(1, 1, m, map[]), a := Coll(2, 2, m, map[])];
    assert Fold(log, 3) == Fold(log, 2);
    assert Fold(log, 4) == map[b := Coll(1, 1, m, map[]), a := Coll(2, 2, m, map[id := src])];
    assert Fold(log, 5) == map[b := Coll(1, 1, m, map[])];
    forall k | 0 <= k < 5 ensures Admitted(log, k) { }
  }

  lemma AfterOverruledOk(a: Name, b: Name, id: Id, src: Source, m: Mapping, m': Mapping)
    requires a != b && Buildable(m, src)
    ensures var log, v := Overruled(a, b, id, src, m, m'), AfterOverruled(b, m);
            WellFormed(log) && Inv(v, log) && C.Reported(v.store, 2, 0)
  {
    var log, v := Overruled(a, b, id, src, m, m'), AfterOverruled(b, m);
    hide Fold;
    AfterOverruledFolds(a, b, id, src, m, m');
    assert MarkIndex(v.store, b) == 2;
    EmptyCaughtUp(log, b, 1, 2, 5);
    assert LiveUuids(v.store.live) == {1} by {
      assert v.store.live[b].uuid == 1;
    }
    CaughtUpCore(v.store, log, 5);
  }

  /**
   A committed create that conflicted with a live collection, and was ignored, can stop a restart:
   replay starts after the collection was created and dropped, so the conflicting create is
   installed, and the document that follows does not fit it.
   */
  lemma OverruledCreateStopsRestart(a: Name, b: Name, id: Id, src: Source, m: Mapping, m': Mapping, t: Store)
    requires a != b && Buildable(m, src) && !Buildable(m', src)
    requires C.Reopens(AfterOverruled(b, m).snapshot, AfterOverruled(b, m).store.dirs, t)
    ensures var log, v := Overruled(a, b, id, src, m, m'), AfterOverruled(b, m);
            && WellFormed(log) && Inv(v, log) && C.Reported(v.store, 2, 0)
            && Replay(t, log, 2, 5) == Fail(BadDocument(a, id)) && StuckAt(t, log, 2, 3)
  {
    var log, v := Overruled(a, b, id, src, m, m'), AfterOverruled(b, m);
    AfterOverruledOk(a, b, id, src, m, m');
    AfterOverruledReplay(a, b, id, src, m, m');
    ReopensSame(v, t);
  }

  lemma AfterOverruledReplay(a: Name, b: Name, id: Id, src: Source, m: Mapping, m': Mapping)
    requires a != b && !Buildable(m', src)
    ensures var log, t := Overruled(a, b, id, src, m, m'), AfterOverruled(b, m).store;
            Replay(t, log, 2, 5) == Fail(BadDocument(a, id)) && StuckAt(t, log, 2, 3)
  {
    var log, t := Overruled(a, b, id, src, m, m'), AfterOverruled(b, m).store;
    hide Fold;
    assert Replay(t, log, 2, 2) == Ok(t);
    var t3 := Install(t, a, 3, m', 3);
    assert Replay(t, log, 2, 3) == ApplyCommand(t, 3, log[2]) == Ok(t3);
    assert MarkIndex(t3, a) == 0;
    assert Replay(t, log, 2, 4) == ApplyCommand(t3, 4, log[3]) == Fail(BadDocument(a, id));
    assert Installs(t, log, 2, 2, a) && NoDrop(log, a, 2, 3);
  }

  // ---------------------------------------------------------------- restarts that lose something

  /** One collection is recreated after a second one was made. */
  function OneRecreated(a: Name, b: Name, m: Mapping): Log {
    [Create(a, 1, m), Create(b, 2, m), Drop(a), Create(a, 3, m)]
  }

  /** All four entries applied; only the second collection is committed, at 4. */
  function RestartedBehind(a: Name, b: Name, m: Mapping): Node {
    Node(Store(map[a := Entry(3, 4, m, map[]), b := Entry(2, 2, m, map[])],
               map[3 := Dir(map[], None), 2 := Dir(map[], Some(LogMark(0, 0, 4)))]),
         Snapshot(4, map[a := SnapshotEntry(3, 4, m), b := SnapshotEntry(2, 2, m)]), 4, 4)
  }

  lemma RestartedBehindFolds(a: Name, b: Name, m: Mapping)
    requires a != b
    ensures var log := OneRecreated(a, b, m);
            && WellFormed(log) && Fold(log, 0) == map[]
            && Fold(log, 4) == map[a := Coll(3, 4, m, map[]), b := Coll(2, 2, m, map[])]
  {
    var log := OneRecreated(a, b, m);
    assert Fold(log, 0) == map[];
    assert Fold(log, 1) == map[a := Coll(1, 1, m, map[])];
    assert Fold(log, 2) == map[a := Coll(1, 1, m, map[]), b := Coll(2, 2, m, map[])];
    assert Fold(log, 3) == map[b := Coll(2, 2, m, map[])];
    assert Fold(log, 4) == map[a := Coll(3, 4, m, map[]), b := Coll(2, 2, m, map[])];
    forall k | 0 <= k < 4 ensures Admitted(log, k) { }
  }

  lemma RestartedBehindOk(a: Name, b: Name, m: Mapping)
    requires a != b
    ensures var log, v := OneRecreated(a, b, m), RestartedBehind(a, b, m);
            && WellFormed(log) && Inv(v, log) && C.Reported(v.store, 0, 0)
            && Fold(log, 4) == map[a := Coll(3, 4, m, map[]), b := Coll(2, 2, m, map[])]
  {
    var log, v := OneRecreated(a, b, m), RestartedBehind(a, b, m);
    hide Fold;
    RestartedBehindFolds(a, b, m);
    assert MarkIndex(v.store, a) == 0 && MarkIndex(v.store, b) == 4;
    EmptyCaughtUp(log, a, 3, 0, 4);
    EmptyCaughtUp(log, b, 2, 4, 4);
    assert LiveUuids(v.store.live) == {3, 2} by {
      assert v.store.live[a].uuid == 3 && v.store.live[b].uuid == 2;
    }
    CaughtUpCore(v.store, log, 4);
  }

  /**
   A crash inside cluster replay can lose a collection: replaying the old drop removes the recreated
   collection and persists that. The next restart reports the surviving mark, has nothing to replay,
   and never sees the create again.
   */
  lemma MidReplayCrashLosesCollection(a: Name, b: Name, m: Mapping, t: Store, t3: Store, p: Snapshot, u: Store)
    requires a != b && C.Reopens(RestartedBehind(a, b, m).snapshot, RestartedBehind(a, b, m).store.dirs, t)
    requires Replay(t, OneRecreated(a, b, m), 0, 3) == Ok(t3) && Lists(p.entries, t3.live) && C.Reopens(p, t3.dirs, u)
    ensures var log, v := OneRecreated(a, b, m), RestartedBehind(a, b, m);
            && WellFormed(log) && Inv(v, log) && C.Reported(v.store, 0, 0)
            && C.Reported(t3, 4, 0) && !C.Covers(t3, log, 4, 4)
            && Replay(u, log, 4, 4) == Ok(u) && a !in u.live && a in Fold(log, 4)
  {
    hide Ready, AllFresh, ApplyCommand, Admitted, Fold, DistinctUuids, Owned;
    RestartedBehindOk(a, b, m);
    RestartedBehindReplay(a, b, m);
    ReopensSame(RestartedBehind(a, b, m), t);
  }

  lemma RestartedBehindReplay(a: Name, b: Name, m: Mapping)
    requires a != b
    ensures var log, t := OneRecreated(a, b, m), RestartedBehind(a, b, m).store;
            && Replay(t, log, 0, 3) == Ok(Uninstall(t, a)) && Uninstall(t, a).live.Keys == {b}
            && C.Reported(Uninstall(t, a), 4, 0)
  {
    var log, t := OneRecreated(a, b, m), RestartedBehind(a, b, m).store;
    hide Fold;
    assert Replay(t, log, 0, 0) == Ok(t);
    assert Replay(t, log, 0, 1) == ApplyCommand(t, 1, log[0]) == Ok(t);
    assert Replay(t, log, 0, 2) == ApplyCommand(t, 2, log[1]) == Ok(t);
    var t3 := Uninstall(t, a);
    assert Replay(t, log, 0, 3) == ApplyCommand(t, 3, log[2]) == Ok(t3);
    assert t3.live.Keys == {b} && MarkIndex(t3, b) == 4;
  }

  /** A document command that reaches the log after its collection was dropped. */
  function StrayDocument(a: Name, id: Id, src: Source, m: Mapping): Log {
    [Create(a, 1, m), Drop(a), Index(a, id, src), Create(a, 2, m)]
  }

  /** All four entries applied, then the new collection committed at the lagging mark 2. */
  function LaggingCommit(a: Name, m: Mapping): Node {
    Node(Store(map[a := Entry(2, 4, m, map[])], map[2 := Dir(map[], Some(LogMark(0, 0, 2)))]), Snapshot(4, map[a := SnapshotEntry(2, 4, m)]), 4, 4)
  }

  lemma LaggingCommitFolds(a: Name, id: Id, src: Source, m: Mapping)
    ensures var log := StrayDocument(a, id, src, m);
            && DistinctUuids(log) && !WellFormed(log) && Fold(log, 2) == map[]
            && Fold(log, 4) == map[a := Coll(2, 4, m, map[])]
  {
    var log := StrayDocument(a, id, src, m);
    assert Fold(log, 0) == map[];
    assert Fold(log, 1) == map[a := Coll(1, 1, m, map[])];
    assert Fold(log, 2) == map[];
    assert Fold(log, 3) == map[];
    assert Fold(log, 4) == map[a := Coll(2, 4, m, map[])];
    assert !Admitted(log, 2);
  }

  lemma LaggingCommitOk(a: Name, id: Id, src: Source, m: Mapping)
    ensures var log, v := StrayDocument(a, id, src, m), LaggingCommit(a, m);
            && DistinctUuids(log) && !WellFormed(log) && Inv(v, log) && C.Reported(v.store, 2, 0)
            && DocAt(log, 4, a, id) == None
  {
    var log, v := StrayDocument(a, id, src, m), LaggingCommit(a, m);
    hide Fold;
    LaggingCommitFolds(a, id, src, m);
    assert MarkIndex(v.store, a) == 2;
    EmptyCaughtUp(log, a, 2, 2, 4);
    assert LiveUuids(v.store.live) == {2} by {
      assert v.store.live[a].uuid == 2;
    }
    CaughtUpCore(v.store, log, 4);
  }

  /**
   A document command checked before its collection was dropped and committed after it did nothing
   when it was first applied; it lands in the recreated collection when it is replayed above a
   lagging mark.
   */
  lemma StrayDocumentReappears(a: Name, id: Id, src: Source, m: Mapping, t: Store)
    requires Buildable(m, src) && C.Reopens(LaggingCommit(a, m).snapshot, LaggingCommit(a, m).store.dirs, t)
    ensures var log, v := StrayDocument(a, id, src, m), LaggingCommit(a, m);
            && DistinctUuids(log) && !WellFormed(log) && Inv(v, log) && C.Reported(v.store, 2, 0) && C.StrayLast(v.store, log, 4, a, id)
            && Replay(t, log, 2, 4).Ok? && a in Replay(t, log, 2, 4).value.live
            && Get(Replay(t, log, 2, 4).value.live[a].buffer, id) == Some(src) && DocAt(log, 4, a, id) == None
  {
    var log, v := StrayDocument(a, id, src, m), LaggingCommit(a, m);
    LaggingCommitOk(a, id, src, m);
    ReopensSame(v, t);
    assert Replay(t, log, 2, 2) == Ok(t);
    assert MarkIndex(t, a) == 2;
    assert Replay(t, log, 2, 3) == ApplyCommand(t, 3, log[2]);
    assert Replay(t, log, 2, 4) == ApplyCommand(Replay(t, log, 2, 3).value, 4, log[3]);
    assert Touches(log[2], a, id) && Untouched(log, a, id, 3, 4);
  }

  // ---------------------------------------------------------------- an install interrupted

  /** A node that has applied, and committed, the create of its one collection. */
  function OneApplied(a: Name, m: Mapping): Node {
    Node(Store(map[a := Entry(1, 1, m, map[])], map[1 := Dir(map[], Some(LogMark(0, 0, 1)))]), Snapshot(1, map[a := SnapshotEntry(1, 1, m)]), 1, 1)
  }

  lemma OneAppliedOk(a: Name, m: Mapping)
    ensures Inv(OneApplied(a, m), [Create(a, 1, m)])
  {
    var log, v := [Create(a, 1, m)], OneApplied(a, m);
    assert Fold(log, 0) == map[];
    assert Fold(log, 1) == map[a := Coll(1, 1, m, map[])];
    assert MarkIndex(v.store, a) == 1;
    EmptyCaughtUp(log, a, 1, 1, 1);
    assert LiveUuids(v.store.live) == {1} by {
      assert v.store.live[a].uuid == 1;
    }
    CaughtUpCore(v.store, log, 1);
  }

  /**
   One replica installs the archive of another that is in the same state. A crash between the two
   renames of the collection they share leaves a catalog that cannot be opened at all.
   */
  lemma InstallCrashLosesCatalog(a: Name, m: Mapping)
    ensures var log, v := [Create(a, 1, m)], OneApplied(a, m);
            && Inv(v, log) && I.Complete(I.ArchiveOf(v), [1]) && I.CommonInstance(v, v, a)
            && I.Unopenable(v.snapshot, I.DirsAt(v.store.dirs, I.ArchiveOf(v), [1], 1))
  {
    var log, v := [Create(a, 1, m)], OneApplied(a, m);
    OneAppliedOk(a, m);
    I.ArchiveComplete(v, log, [1]);
    I.MovedAside(v.store.dirs, I.ArchiveOf(v), [1], 0);
    I.MissingDir(v.snapshot, I.DirsAt(v.store.dirs, I.ArchiveOf(v), [1], 1), a);
  }
}
