/**
 A cluster node over one committed log: applying entries, commits with lagging marks, restarts that
 replay from the reported applied point, and snapshots installed from another node.
 */
module ClusterNodes {
  import opened Outcome
  import opened Documents
  import opened Commands
  import opened Stores
  import opened Replays

  /**
   `applied` is the last position applied since the node started; `high` the greatest position
   whose effects its directories may hold. Replay is in progress while `applied < high`.
   */
  datatype Node = Node(store: Store, snapshot: Snapshot, applied: nat, high: nat)

  const INITIAL := Node(Store(map[], map[]), EMPTY_SNAPSHOT, 0, 0)

  // ---------------------------------------------------------------- freshness

  /** The document `id` of the instance `u` of `n` after `p` commands. */
  function DocOf(log: Log, p: nat, n: Name, u: Uuid, id: Id): Option<Source>
    requires p <= |log|
  {
    if n in Fold(log, p) && Fold(log, p)[n].uuid == u then Get(Fold(log, p)[n].docs, id) else None
  }

  /** `v` is the value `id` had after some prefix of at least `lo` commands. */
  ghost predicate Caught(log: Log, n: Name, u: Uuid, id: Id, v: Option<Source>, lo: nat, hi: nat)
    requires hi <= |log|
  {
    exists p {:trigger DocOf(log, p, n, u, id)} :: lo <= p <= hi && v == DocOf(log, p, n, u, id)
  }

  /** Every document of the instance is at least as new as position `lo`. */
  ghost predicate CaughtUp(log: Log, n: Name, u: Uuid, docs: Docs, lo: nat, hi: nat)
    requires hi <= |log|
  {
    forall id :: Caught(log, n, u, id, Get(docs, id), lo, hi)
  }

  /** A document as new as `lo` and untouched since is final. */
  lemma CaughtIsFinal(log: Log, n: Name, u: Uuid, id: Id, v: Option<Source>, lo: nat, hi: nat)
    requires hi <= |log| && DistinctUuids(log) && n in Fold(log, hi) && Fold(log, hi)[n].uuid == u
    requires Caught(log, n, u, id, v, lo, hi) && Untouched(log, n, id, lo, hi)
    ensures v == DocAt(log, hi, n, id)
  {
    var p :| lo <= p <= hi && v == DocOf(log, p, n, u, id);
    var c := Fold(log, hi)[n].created;
    FoldOwner(log, hi, n);
    if c <= p {
      FoldSince(log, n, p, hi);
      FoldUntouched(log, n, id, p, hi);
    } else {
      if n in Fold(log, p) && Fold(log, p)[n].uuid == u {
        FoldOwner(log, p, n);
        assert false;
      }
      FoldSince(log, n, c, hi);
      BornEmpty(log, n, c);
      FoldUntouched(log, n, id, c, hi);
    }
  }

  /** Documents each as of some prefix that reaches `lo` are settled for replay above `lo`. */
  lemma CaughtUpIsSettled(log: Log, n: Name, u: Uuid, docs: Docs, lo: nat, hi: nat)
    requires lo <= hi <= |log| && WellFormed(log) && n in Fold(log, hi) && Fold(log, hi)[n].uuid == u
    requires CaughtUp(log, n, u, docs, lo, hi) && NoDrop(log, n, lo, hi)
    ensures SettledDocs(log, n, docs, lo, hi)
  {
    forall id ensures Settled(log, n, id, Get(docs, id), lo, hi) {
      assert Caught(log, n, u, id, Get(docs, id), lo, hi);
      SettledIff(log, n, id, Get(docs, id), lo, hi);
      if Untouched(log, n, id, lo, hi) {
        CaughtIsFinal(log, n, u, id, Get(docs, id), lo, hi);
      }
    }
  }

  // ---------------------------------------------------------------- invariant

  /** The buffer of `n` is at least as new as the replay position and the commit mark. */
  ghost predicate FreshBuffer(s: Store, log: Log, k: nat, hi: nat, n: Name)
    requires k <= hi <= |log| && n in s.live
  {
    NoDrop(log, n, k, hi) ==>
      CaughtUp(log, n, s.live[n].uuid, s.live[n].buffer, Max(k, MarkIndex(s, n)), hi)
  }

  /**
   The committed contents of `n` are at least as new as its mark, unless a drop above both the
   replay position and the mark is still due.
   */
  ghost predicate FreshDir(s: Store, log: Log, k: nat, hi: nat, n: Name)
    requires k <= hi <= |log| && n in s.live && s.live[n].uuid in s.dirs
  {
    var u := s.live[n].uuid;
    var m := MarkIndex(s, n);
    m <= hi &&
    (NoDrop(log, n, Max(k, m), hi) ==>
       n in Fold(log, hi) && Fold(log, hi)[n].uuid == u && CaughtUp(log, n, u, s.dirs[u].docs, m, hi))
  }

  ghost predicate Fresh(s: Store, log: Log, k: nat, hi: nat, n: Name)
    requires k <= hi <= |log| && n in s.live && s.live[n].uuid in s.dirs
  {
    FreshBuffer(s, log, k, hi, n) && FreshDir(s, log, k, hi, n)
  }

  ghost predicate AllFresh(s: Store, log: Log, k: nat, hi: nat)
    requires k <= hi <= |log| && Owned(s, log)
  {
    forall n {:trigger Fresh(s, log, k, hi, n)} :: n in s.live ==> Fresh(s, log, k, hi, n)
  }

  /** Entries and directories agree, and stem from the log up to `high`. */
  predicate Shape(s: Store, log: Log, high: nat) {
    && Owned(s, log)
    && (forall n :: n in s.live ==> s.live[n].createdSeq <= high)
    && DirsMatchLive(s)
  }

  /** Everything the store of a node keeps about the log. */
  ghost predicate Core(s: Store, log: Log, k: nat, hi: nat) {
    k <= hi <= |log| && Shape(s, log, hi) && Ready(s, log, k, hi) && AllFresh(s, log, k, hi)
  }

  ghost predicate Inv(v: Node, log: Log) {
    Core(v.store, log, v.applied, v.high) && Lists(v.snapshot.entries, v.store.live)
  }

  /** A node that shows the log it has applied, with committed contents as new as their marks, is consistent. */
  lemma CaughtUpCore(s: Store, log: Log, hi: nat)
    requires hi <= |log| && Shape(s, log, hi) && DistinctUuids(log) && Exact(s, log, hi)
    requires forall n :: n in s.live ==>
               MarkIndex(s, n) <= hi && s.live[n].uuid in s.dirs && CaughtUp(log, n, s.live[n].uuid, s.dirs[s.live[n].uuid].docs, MarkIndex(s, n), hi)
    ensures Core(s, log, hi, hi)
  {
    ReadyIsExact(s, log, hi);
    forall n | n in s.live ensures Fresh(s, log, hi, hi, n) {
      assert CollOf(s.live[n]) == Fold(log, hi)[n];
      forall id ensures Caught(log, n, s.live[n].uuid, id, Get(s.live[n].buffer, id), hi, hi) {
        assert Get(s.live[n].buffer, id) == DocOf(log, hi, n, s.live[n].uuid, id);
      }
    }
  }

  /** An empty collection is caught up wherever its instance had no documents. */
  lemma EmptyCaughtUp(log: Log, n: Name, u: Uuid, p: nat, hi: nat)
    requires p <= hi <= |log| && forall id :: DocOf(log, p, n, u, id) == None
    ensures CaughtUp(log, n, u, map[], p, hi)
  {
    var none: Docs := map[];
    forall id ensures Caught(log, n, u, id, Get(none, id), p, hi) {
      assert Get(none, id) == DocOf(log, p, n, u, id);
    }
  }

  // ---------------------------------------------------------------- applying

  /** In a node, the uuid of a create that is about to install is new to the directories. */
  lemma CreateIsNew(s: Store, log: Log, k: nat)
    requires k < |log| && Owned(s, log) && DistinctUuids(log) && DirsMatchLive(s)
    requires log[k].Create? && log[k].name !in s.live
    ensures log[k].uuid !in s.dirs
  {
  }

  lemma ExtendReady(s: Store, log: Log, hi: nat, next: nat, n: Name)
    requires hi < |log| && next == hi + 1 && DirsMatchLive(s) && Exact(s, log, hi)
    requires n in s.live ==> MarkIndex(s, n) <= hi
    ensures ReadyName(s, log, hi, next, n)
  {
    if n in s.live && NoDrop(log, n, hi, next) {
      assert CollOf(s.live[n]) == Fold(log, hi)[n];
      FoldKeeps(log, n, hi, next);
      SettledNext(log, hi, n);
    }
  }

  /** The documents at `hi` are settled for the one command that follows. */
  lemma SettledNext(log: Log, hi: nat, n: Name)
    requires hi < |log| && n in Fold(log, hi) && NoDrop(log, n, hi, hi + 1)
    ensures SettledDocs(log, n, Fold(log, hi)[n].docs, hi, hi + 1)
  {
    forall id ensures Settled(log, n, id, Get(Fold(log, hi)[n].docs, id), hi, hi + 1) {
      TouchedIsDoc(log, n, id, hi, hi + 1);
    }
  }

  lemma ExtendFresh(s: Store, log: Log, hi: nat, next: nat, n: Name)
    requires hi < |log| && next == hi + 1
    requires n in s.live && s.live[n].uuid in s.dirs && Fresh(s, log, hi, hi, n)
    ensures Fresh(s, log, hi, next, n)
  {
    var u := s.live[n].uuid;
    CaughtUpLonger(log, n, u, s.live[n].buffer, Max(hi, MarkIndex(s, n)), hi);
    CaughtUpLonger(log, n, u, s.dirs[u].docs, MarkIndex(s, n), hi);
    if NoDrop(log, n, hi, next) {
      FoldKeeps(log, n, hi, next);
    }
  }

  lemma CaughtUpLonger(log: Log, n: Name, u: Uuid, docs: Docs, lo: nat, hi: nat)
    requires hi < |log| && CaughtUp(log, n, u, docs, lo, hi)
    ensures CaughtUp(log, n, u, docs, lo, hi + 1)
  {
    forall id ensures Caught(log, n, u, id, Get(docs, id), lo, hi + 1) {
      assert Caught(log, n, u, id, Get(docs, id), lo, hi);
    }
  }

  /** A fully applied node stays fit when one more log position comes into view. */
  lemma ExtendHigh(s: Store, log: Log, hi: nat, next: nat)
    requires Core(s, log, hi, hi) && DistinctUuids(log) && hi < |log| && next == hi + 1
    ensures Core(s, log, hi, next)
  {
    ReadyIsExact(s, log, hi);
    ExtendAll(s, log, hi, next);
  }

  lemma ExtendAll(s: Store, log: Log, hi: nat, next: nat)
    requires hi < |log| && next == hi + 1 && Owned(s, log) && DirsMatchLive(s)
    requires Exact(s, log, hi) && AllFresh(s, log, hi, hi)
    ensures Ready(s, log, hi, next) && AllFresh(s, log, hi, next)
  {
    forall n ensures ReadyName(s, log, hi, next, n) {
      assert n in s.live ==> Fresh(s, log, hi, hi, n);
      ExtendReady(s, log, hi, next, n);
    }
    forall n | n in s.live ensures Fresh(s, log, hi, next, n) {
      assert Fresh(s, log, hi, hi, n);
      ExtendFresh(s, log, hi, next, n);
    }
  }

  /** A command that leaves the instance's documents alone moves freshness one position on. */
  lemma Bump(log: Log, n: Name, u: Uuid, docs: Docs, k: nat, m: nat, hi: nat)
    requires k < hi <= |log| && CaughtUp(log, n, u, docs, Max(k, m), hi)
    requires forall id :: DocOf(log, k + 1, n, u, id) == DocOf(log, k, n, u, id)
    ensures CaughtUp(log, n, u, docs, Max(k + 1, m), hi)
  {
    forall id ensures Caught(log, n, u, id, Get(docs, id), Max(k + 1, m), hi) {
      assert Caught(log, n, u, id, Get(docs, id), Max(k, m), hi);
      var p :| Max(k, m) <= p <= hi && Get(docs, id) == DocOf(log, p, n, u, id);
      if p == k {
        assert Get(docs, id) == DocOf(log, k + 1, n, u, id);
      }
    }
  }

  lemma OtherFresh(s: Store, t: Store, log: Log, k: nat, hi: nat, n: Name)
    requires k < hi <= |log| && Owned(s, log) && DistinctUuids(log)
    requires ApplyCommand(s, k + 1, log[k]) == Ok(t) && (log[k].Blank? || log[k].name != n)
    requires n in s.live && Fresh(s, log, k, hi, n)
    ensures n in t.live && t.live[n].uuid in t.dirs && Fresh(t, log, k + 1, hi, n)
  {
    OtherUnchanged(s, log, k, n);
    assert t.live[n] == s.live[n];
    KeptFresh(s, t, log, k, hi, n);
  }

  /** A command other than a drop of `n` that leaves its documents alone keeps `n` fresh. */
  lemma KeptFresh(s: Store, t: Store, log: Log, k: nat, hi: nat, n: Name)
    requires k < hi <= |log| && n in s.live && s.live[n].uuid in s.dirs && Fresh(s, log, k, hi, n)
    requires n in t.live && t.live[n] == s.live[n]
    requires t.live[n].uuid in t.dirs && t.dirs[t.live[n].uuid] == s.dirs[s.live[n].uuid]
    requires log[k] != Drop(n) && forall id :: DocOf(log, k + 1, n, s.live[n].uuid, id) == DocOf(log, k, n, s.live[n].uuid, id)
    ensures Fresh(t, log, k + 1, hi, n)
  {
    var m := MarkIndex(s, n);
    assert NoDrop(log, n, k + 1, hi) ==> NoDrop(log, n, k, hi);
    assert NoDrop(log, n, Max(k + 1, m), hi) ==> NoDrop(log, n, Max(k, m), hi);
    if NoDrop(log, n, k, hi) {
      Bump(log, n, s.live[n].uuid, s.live[n].buffer, k, m, hi);
    }
  }

  lemma CreateFresh(s: Store, t: Store, log: Log, k: nat, hi: nat, n: Name)
    requires k < hi <= |log| && Owned(s, log) && DistinctUuids(log) && DirsMatchLive(s)
    requires ApplyCommand(s, k + 1, log[k]) == Ok(t) && log[k].Create? && log[k].name == n
    requires n in s.live ==> Fresh(s, log, k, hi, n)
    requires ReadyEntry(t, log, k + 1, hi, n)
    ensures n in t.live && t.live[n].uuid in t.dirs && Fresh(t, log, k + 1, hi, n)
  {
    if n in s.live {
      forall id ensures DocOf(log, k + 1, n, s.live[n].uuid, id) == DocOf(log, k, n, s.live[n].uuid, id) {
        CreateKeepsDocs(log, k, n, s.live[n].uuid, id);
      }
      KeptFresh(s, t, log, k, hi, n);
    } else {
      CreateIsNew(s, log, k);
      InstalledFresh(s, log, k, hi);
    }
  }

  /** Creates never change the documents of an instance. */
  lemma CreateKeepsDocs(log: Log, k: nat, n: Name, u: Uuid, id: Id)
    requires k < |log| && log[k].Create?
    ensures DocOf(log, k + 1, n, u, id) == DocOf(log, k, n, u, id)
  {
  }

  lemma InstalledFresh(s: Store, log: Log, k: nat, hi: nat)
    requires k < hi <= |log| && DistinctUuids(log)
    requires log[k].Create? && log[k].name !in s.live && log[k].uuid !in s.dirs
    ensures CaughtUp(log, log[k].name, log[k].uuid, map[], k + 1, hi)
    ensures CaughtUp(log, log[k].name, log[k].uuid, map[], 0, hi)
  {
    var n, u, next := log[k].name, log[k].uuid, k + 1;
    forall id ensures DocOf(log, next, n, u, id) == None && DocOf(log, 0, n, u, id) == None {
      if n in Fold(log, k) && Fold(log, k)[n].uuid == u {
        FoldOwner(log, k, n);
        assert false;
      }
    }
    var none: Docs := map[];
    forall id ensures Caught(log, n, u, id, Get(none, id), k + 1, hi) && Caught(log, n, u, id, Get(none, id), 0, hi) {
      assert DocOf(log, next, n, u, id) == Get(none, id) == DocOf(log, 0, n, u, id);
    }
  }

  lemma DocFresh(s: Store, t: Store, log: Log, k: nat, hi: nat, n: Name)
    requires k < hi <= |log| && n in s.live && s.live[n].uuid in s.dirs && n in Fold(log, k)
    requires ApplyCommand(s, k + 1, log[k]) == Ok(t) && (log[k].Index? || log[k].Delete?) && log[k].name == n
    requires Fresh(s, log, k, hi, n) && ReadyEntry(s, log, k, hi, n)
    ensures n in t.live && t.live[n].uuid in t.dirs && Fresh(t, log, k + 1, hi, n)
  {
    hide Fold, CaughtUp, SettledDocs, Buildable;
    assert t.live[n].uuid == s.live[n].uuid && t.dirs == s.dirs;
    var m := MarkIndex(s, n);
    assert NoDrop(log, n, k + 1, hi) ==> NoDrop(log, n, k, hi);
    assert NoDrop(log, n, Max(k + 1, m), hi) ==> NoDrop(log, n, Max(k, m), hi);
    if NoDrop(log, n, k, hi) && m <= k {
      FoldKeeps(log, n, k, hi);
      BufferedFresh(s.live[n].buffer, t.live[n].buffer, log, k, hi, n, s.live[n].uuid);
    }
  }

  /** Buffering one document command: its document is as new as the command, the others follow. */
  lemma BufferedFresh(before: Docs, after: Docs, log: Log, k: nat, hi: nat, n: Name, u: Uuid)
    requires k < hi <= |log| && n in Fold(log, k) && Fold(log, k)[n].uuid == u
    requires (log[k].Index? || log[k].Delete?) && log[k].name == n
    requires after == if log[k].Index? then before[log[k].id := log[k].source] else before - {log[k].id}
    requires CaughtUp(log, n, u, before, k, hi)
    ensures CaughtUp(log, n, u, after, k + 1, hi)
  {
    forall id ensures Caught(log, n, u, id, Get(after, id), k + 1, hi) {
      if id == log[k].id {
        assert Get(after, id) == DocOf(log, k + 1, n, u, id);
      } else {
        assert Get(after, id) == Get(before, id) && Caught(log, n, u, id, Get(before, id), k, hi);
        UntouchedFresh(log, n, u, id, Get(before, id), k, hi);
      }
    }
  }

  lemma UntouchedFresh(log: Log, n: Name, u: Uuid, id: Id, v: Option<Source>, k: nat, hi: nat)
    requires k < hi <= |log| && n in Fold(log, k) && Fold(log, k)[n].uuid == u
    requires (log[k].Index? || log[k].Delete?) && log[k].name == n && log[k].id != id
    requires Caught(log, n, u, id, v, k, hi)
    ensures Caught(log, n, u, id, v, k + 1, hi)
  {
    var p :| k <= p <= hi && v == DocOf(log, p, n, u, id);
    assert DocOf(log, k + 1, n, u, id) == DocOf(log, k, n, u, id);
    if p == k {
      assert v == DocOf(log, k + 1, n, u, id);
    }
  }

  /** A document command that finds an entry was meant for a live collection. */
  predicate MeetsLive(s: Store, log: Log, k: nat)
    requires k < |log|
  {
    (log[k].Index? || log[k].Delete?) && log[k].name in s.live ==> log[k].name in Fold(log, k)
  }

  lemma FreshStep(s: Store, t: Store, log: Log, k: nat, next: nat, hi: nat, n: Name)
    requires k < hi <= |log| && next == k + 1 && Owned(s, log) && DistinctUuids(log) && DirsMatchLive(s)
    requires ApplyCommand(s, next, log[k]) == Ok(t) && n in t.live && MeetsLive(s, log, k)
    requires n in s.live ==> Fresh(s, log, k, hi, n)
    requires ReadyEntry(s, log, k, hi, n) && ReadyEntry(t, log, next, hi, n)
    ensures t.live[n].uuid in t.dirs && Fresh(t, log, next, hi, n)
  {
    if log[k].Blank? || log[k].name != n {
      assert n in s.live by { OtherUnchanged(s, log, k, n); }
      OtherFresh(s, t, log, k, hi, n);
    } else if log[k].Create? {
      CreateFresh(s, t, log, k, hi, n);
    } else {
      DocFresh(s, t, log, k, hi, n);
    }
  }

  lemma ShapeStep(s: Store, t: Store, log: Log, k: nat, high: nat)
    requires k < high <= |log| && DistinctUuids(log) && Shape(s, log, high)
    requires ApplyCommand(s, k + 1, log[k]) == Ok(t)
    ensures Shape(t, log, high)
  {
    OwnedStep(s, log, k);
    CreatedStep(s, t, log, k, high);
    if log[k].Create? && log[k].name !in s.live {
      CreateIsNew(s, log, k);
    }
    ApplyMatches(s, k + 1, log[k]);
  }

  lemma CreatedStep(s: Store, t: Store, log: Log, k: nat, high: nat)
    requires k < high <= |log| && ApplyCommand(s, k + 1, log[k]) == Ok(t)
    requires forall n :: n in s.live ==> s.live[n].createdSeq <= high
    ensures forall n :: n in t.live ==> t.live[n].createdSeq <= high
  {
  }

  lemma StepKeeps(s: Store, t: Store, log: Log, k: nat, next: nat, hi: nat)
    requires Core(s, log, k, hi) && k < hi && next == k + 1 && DistinctUuids(log) && MeetsLive(s, log, k)
    requires ApplyCommand(s, next, log[k]) == Ok(t)
    ensures Core(t, log, next, hi)
  {
    ShapeStep(s, t, log, k, hi);
    ReadyStep(s, log, k, hi);
    AllFreshStep(s, t, log, k, next, hi);
  }

  lemma AllFreshStep(s: Store, t: Store, log: Log, k: nat, next: nat, hi: nat)
    requires k < hi <= |log| && next == k + 1 && DistinctUuids(log) && MeetsLive(s, log, k)
    requires Owned(s, log) && DirsMatchLive(s) && Owned(t, log) && ApplyCommand(s, next, log[k]) == Ok(t)
    requires Ready(s, log, k, hi) && Ready(t, log, next, hi) && AllFresh(s, log, k, hi)
    ensures AllFresh(t, log, next, hi)
  {
    forall n | n in t.live ensures Fresh(t, log, next, hi, n) {
      assert ReadyName(t, log, next, hi, n) && ReadyName(s, log, k, hi, n);
      assert n in s.live ==> Fresh(s, log, k, hi, n);
      FreshStep(s, t, log, k, next, hi, n);
    }
  }

  /**
   Applying the next entry keeps the invariant: in a log whose document commands name live
   collections, in replay and beyond it; in any log, outside replay.
   */
  lemma ApplyKeeps(s: Store, t: Store, log: Log, k: nat, next: nat, hi: nat)
    requires Core(s, log, k, hi) && k < |log| && next == k + 1 && DistinctUuids(log) && (k == hi || WellFormed(log))
    requires ApplyCommand(s, next, log[k]) == Ok(t)
    ensures Core(t, log, next, Max(hi, next))
  {
    if k == hi {
      ReadyIsExact(s, log, hi);
      ExtendHigh(s, log, hi, next);
      StepKeeps(s, t, log, k, next, next);
    } else {
      assert Admitted(log, k);
      StepKeeps(s, t, log, k, next, hi);
    }
  }

  // ---------------------------------------------------------------- commits

  lemma CommitReady(s: Store, log: Log, k: nat, hi: nat, n: Name, mark: LogMark)
    requires k <= hi <= |log| && n in s.live && mark.index <= k && ReadyEntry(s, log, k, hi, n)
    requires k == hi || (WellFormed(log) && MarkIndex(s, n) <= hi)
    ensures ReadyEntry(CommitOne(s, n, mark), log, k, hi, n)
  {
    if NoDrop(log, n, k, hi) {
      var docs, lo := s.live[n].buffer, Max(k, MarkIndex(s, n));
      forall id ensures Settled(log, n, id, Get(docs, id), k, hi) {
        assert Settled(log, n, id, Get(docs, id), lo, hi);
        if k < hi {
          SettledIff(log, n, id, Get(docs, id), lo, hi);
          SettledIff(log, n, id, Get(docs, id), k, hi);
        }
      }
    }
  }

  lemma CaughtUpLower(log: Log, n: Name, u: Uuid, docs: Docs, lo: nat, lo': nat, hi: nat)
    requires hi <= |log| && lo' <= lo && CaughtUp(log, n, u, docs, lo, hi)
    ensures CaughtUp(log, n, u, docs, lo', hi)
  {
    forall id ensures Caught(log, n, u, id, Get(docs, id), lo', hi) {
      assert Caught(log, n, u, id, Get(docs, id), lo, hi);
    }
  }

  lemma CommitFresh(s: Store, log: Log, k: nat, hi: nat, n: Name, mark: LogMark)
    requires k <= hi <= |log| && n in s.live && mark.index <= k
    requires FreshBuffer(s, log, k, hi, n) && ReadyEntry(s, log, k, hi, n)
    ensures Fresh(CommitOne(s, n, mark), log, k, hi, n)
  {
    if NoDrop(log, n, k, hi) {
      var e, lo := s.live[n], Max(k, MarkIndex(s, n));
      CaughtUpLower(log, n, e.uuid, e.buffer, lo, k, hi);
      CaughtUpLower(log, n, e.uuid, e.buffer, lo, mark.index, hi);
    }
  }

  lemma CommitOther(s: Store, log: Log, k: nat, hi: nat, n: Name, mark: LogMark, other: Name)
    requires k <= hi <= |log| && DirsMatchLive(s) && n in s.live && other != n
    ensures var t := CommitOne(s, n, mark);
            && (ReadyName(s, log, k, hi, other) ==> ReadyName(t, log, k, hi, other))
            && (other in s.live && s.live[other].uuid in s.dirs && Fresh(s, log, k, hi, other) ==> Fresh(t, log, k, hi, other))
  {
    var t := CommitOne(s, n, mark);
    CommitMatches(s, n, mark);
    if other in s.live {
      assert s.live[other].uuid != s.live[n].uuid;
      assert MarkIndex(t, other) == MarkIndex(s, other);
    }
  }

  /** Committing one collection at a mark the node has applied keeps the invariant. */
  lemma CommitKeeps(s: Store, log: Log, k: nat, hi: nat, n: Name, mark: LogMark)
    requires Core(s, log, k, hi) && n in s.live && mark.index <= k && (k == hi || WellFormed(log))
    ensures Core(CommitOne(s, n, mark), log, k, hi)
  {
    CommitMatches(s, n, mark);
    CommitAllReady(s, log, k, hi, n, mark);
  }

  lemma CommitAllReady(s: Store, log: Log, k: nat, hi: nat, n: Name, mark: LogMark)
    requires k <= hi <= |log| && n in s.live && mark.index <= k && Owned(s, log) && DirsMatchLive(s)
    requires Ready(s, log, k, hi) && AllFresh(s, log, k, hi) && (k == hi || WellFormed(log))
    ensures var t := CommitOne(s, n, mark); Owned(t, log) && Ready(t, log, k, hi) && AllFresh(t, log, k, hi)
  {
    hide ReadyName, Fresh, WellFormed;
    var t := CommitOne(s, n, mark);
    CommitMatches(s, n, mark);
    forall other ensures ReadyName(t, log, k, hi, other) {
      CommitName(s, log, k, hi, n, mark, other);
    }
    forall other | other in t.live ensures Fresh(t, log, k, hi, other) {
      CommitName(s, log, k, hi, n, mark, other);
    }
  }

  lemma CommitName(s: Store, log: Log, k: nat, hi: nat, n: Name, mark: LogMark, other: Name)
    requires k <= hi <= |log| && n in s.live && mark.index <= k && Owned(s, log) && DirsMatchLive(s)
    requires Ready(s, log, k, hi) && AllFresh(s, log, k, hi) && (k == hi || WellFormed(log))
    ensures var t := CommitOne(s, n, mark);
            ReadyName(t, log, k, hi, other) && (other in t.live ==> t.live[other].uuid in t.dirs && Fresh(t, log, k, hi, other))
  {
    assert ReadyName(s, log, k, hi, other);
    assert other in s.live ==> Fresh(s, log, k, hi, other);
    if other == n {
      CommitMatches(s, n, mark);
      CommitReady(s, log, k, hi, n, mark);
      CommitFresh(s, log, k, hi, n, mark);
    } else {
      CommitOther(s, log, k, hi, n, mark, other);
    }
  }
}
