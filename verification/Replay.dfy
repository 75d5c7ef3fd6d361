/**
 Replay over a store that may be behind or ahead of the replay position. The central result is an
 exact one: replaying positions `k + 1 ..= hi` ends in `Fold(log, hi)` if and only if the starting
 store is `Ready`.
 */
module Replays {
  import opened Outcome
  import opened Mappings
  import opened Documents
  import opened Commands
  import opened Stores

  /** Every live entry was made by a create command of the log, and has its directory. */
  predicate Owned(s: Store, log: Log) {
    forall n :: n in s.live ==>
      var e := s.live[n];
      1 <= e.createdSeq <= |log| && log[e.createdSeq - 1] == Create(n, e.uuid, e.mapping) && e.uuid in s.dirs
  }

  /** The value of a document after one command of its collection, whichever instance that was meant for. */
  function After(cmd: Command, n: Name, id: Id, v: Option<Source>): Option<Source> {
    if !Touches(cmd, n, id) then v else if cmd.Index? then Some(cmd.source) else None
  }

  /** The value after the touches at positions `lo + 1 ..= hi`. */
  function Touched(log: Log, n: Name, id: Id, v: Option<Source>, lo: nat, hi: nat): Option<Source>
    requires hi <= |log|
    decreases hi
  {
    if hi <= lo then v else After(log[hi - 1], n, id, Touched(log, n, id, v, lo, hi - 1))
  }

  /** The touches still to come turn `v` into the final value. */
  predicate Settled(log: Log, n: Name, id: Id, v: Option<Source>, lo: nat, hi: nat)
    requires hi <= |log|
  {
    Touched(log, n, id, v, lo, hi) == DocAt(log, hi, n, id)
  }

  ghost predicate SettledDocs(log: Log, n: Name, docs: Docs, lo: nat, hi: nat)
    requires hi <= |log|
  {
    forall id :: Settled(log, n, id, Get(docs, id), lo, hi)
  }

  /**
   The entry for `n` is fit for replay: unless a coming drop will discard it, it is there if the
   log says so, it is the final instance, and every document is settled.
   */
  ghost predicate ReadyEntry(s: Store, log: Log, k: nat, hi: nat, n: Name)
    requires k <= hi <= |log|
  {
    NoDrop(log, n, k, hi) ==>
      (n in Fold(log, k) ==> n in s.live) &&
      (n in s.live ==>
         n in Fold(log, hi) && s.live[n].uuid == Fold(log, hi)[n].uuid &&
         SettledDocs(log, n, s.live[n].buffer, Max(k, MarkIndex(s, n)), hi))
  }

  /** A directory waiting for its create command to be replayed is fit too. */
  ghost predicate ReadyDir(s: Store, log: Log, k: nat, hi: nat, n: Name)
    requires k <= hi <= |log|
  {
    n in Fold(log, hi) && k < Fold(log, hi)[n].created ==>
      var c := Fold(log, hi)[n];
      c.uuid in s.dirs && c.uuid !in LiveUuids(s.live) ==>
        SettledDocs(log, n, s.dirs[c.uuid].docs, Max(c.created, MarkOf(s.dirs[c.uuid]).index), hi)
  }

  ghost predicate ReadyName(s: Store, log: Log, k: nat, hi: nat, n: Name)
    requires k <= hi <= |log|
  {
    ReadyEntry(s, log, k, hi, n) && ReadyDir(s, log, k, hi, n)
  }

  /** A caller can decide this before replay: it mentions only the store and the log. */
  ghost predicate Ready(s: Store, log: Log, k: nat, hi: nat)
    requires k <= hi <= |log|
  {
    forall n :: ReadyName(s, log, k, hi, n)
  }

  /** The store shows exactly what the first `hi` commands define. */
  predicate Exact(s: Store, log: Log, hi: nat)
    requires hi <= |log|
  {
    Shows(s.live, Fold(log, hi))
  }

  // ---------------------------------------------------------------- touches

  lemma {:induction false} TouchedFirst(log: Log, n: Name, id: Id, v: Option<Source>, lo: nat, hi: nat)
    requires lo < hi <= |log|
    ensures Touched(log, n, id, v, lo, hi) == Touched(log, n, id, After(log[lo], n, id, v), lo + 1, hi)
    decreases hi
  {
    if lo + 1 < hi {
      TouchedFirst(log, n, id, v, lo, hi - 1);
    }
  }

  lemma {:induction false} TouchedNever(log: Log, n: Name, id: Id, v: Option<Source>, lo: nat, hi: nat)
    requires hi <= |log| && Untouched(log, n, id, lo, hi)
    ensures Touched(log, n, id, v, lo, hi) == v
    decreases hi
  {
    if lo < hi {
      TouchedNever(log, n, id, v, lo, hi - 1);
    }
  }

  /** While the collection lives, every touch counts. */
  lemma {:induction false} TouchedIsDoc(log: Log, n: Name, id: Id, lo: nat, hi: nat)
    requires lo <= hi <= |log| && n in Fold(log, lo) && NoDrop(log, n, lo, hi)
    ensures Touched(log, n, id, DocAt(log, lo, n, id), lo, hi) == DocAt(log, hi, n, id)
    decreases hi
  {
    if lo < hi {
      TouchedIsDoc(log, n, id, lo, hi - 1);
      FoldKeeps(log, n, lo, hi - 1);
    }
  }

  /** Two touched stretches in a row. */
  lemma {:induction false} TouchedSplit(log: Log, n: Name, id: Id, v: Option<Source>, lo: nat, mid: nat, hi: nat)
    requires lo <= mid <= hi <= |log|
    ensures Touched(log, n, id, v, lo, hi) == Touched(log, n, id, Touched(log, n, id, v, lo, mid), mid, hi)
    decreases hi
  {
    if mid < hi {
      TouchedSplit(log, n, id, v, lo, mid, hi - 1);
    }
  }

  /**
   In a log whose document commands name live collections: a value is settled if it is final, or if
   any command for it is still to come.
   */
  lemma SettledIff(log: Log, n: Name, id: Id, v: Option<Source>, lo: nat, hi: nat)
    requires lo <= hi <= |log| && WellFormed(log) && n in Fold(log, hi) && NoDrop(log, n, lo, hi)
    ensures Settled(log, n, id, v, lo, hi) <==> !Untouched(log, n, id, lo, hi) || v == DocAt(log, hi, n, id)
  {
    if Untouched(log, n, id, lo, hi) {
      TouchedNever(log, n, id, v, lo, hi);
    } else {
      var i :| lo <= i < hi && Touches(log[i], n, id);
      assert Admitted(log, i);
      TouchedSplit(log, n, id, v, lo, i + 1, hi);
      TouchedIsDoc(log, n, id, i + 1, hi);
    }
  }

  // ---------------------------------------------------------------- one step

  lemma OwnedUuids(s: Store, log: Log, n: Name, n': Name)
    requires Owned(s, log) && DistinctUuids(log) && n in s.live && n' in s.live
    requires s.live[n].uuid == s.live[n'].uuid
    ensures n == n'
  {
    SameUuid(log, s.live[n].createdSeq - 1, s.live[n'].createdSeq - 1);
  }

  lemma OwnedStep(s: Store, log: Log, k: nat)
    requires k < |log| && Owned(s, log) && DistinctUuids(log)
    requires ApplyCommand(s, k + 1, log[k]).Ok?
    ensures Owned(ApplyCommand(s, k + 1, log[k]).value, log)
  {
    match log[k]
    case Create(n, u, m) =>
    case Drop(n) =>
      if n in s.live {
        OwnedUninstall(s, log, n);
      }
    case Index(n, id, src) =>
    case Delete(n, id) =>
    case Blank =>
  }

  lemma OwnedUninstall(s: Store, log: Log, n: Name)
    requires Owned(s, log) && DistinctUuids(log) && n in s.live
    ensures Owned(Uninstall(s, n), log)
  {
    forall n' | n' in s.live && n' != n ensures s.live[n'].uuid != s.live[n].uuid {
      if s.live[n'].uuid == s.live[n].uuid {
        OwnedUuids(s, log, n', n);
      }
    }
  }

  /** Positions of settled ranges shift by a command that does not concern the document. */
  lemma SettledShift(log: Log, n: Name, docs: Docs, k: nat, m: nat, hi: nat)
    requires k < hi <= |log|
    requires forall id :: !Touches(log[k], n, id)
    ensures SettledDocs(log, n, docs, Max(k, m), hi) <==> SettledDocs(log, n, docs, Max(k + 1, m), hi)
  {
    forall id ensures Settled(log, n, id, Get(docs, id), Max(k, m), hi) <==> Settled(log, n, id, Get(docs, id), Max(k + 1, m), hi) {
      if m <= k {
        TouchedFirst(log, n, id, Get(docs, id), k, hi);
      }
    }
  }

  /** The final instance of `n` is not the directory another name's create or entry refers to. */
  lemma FinalUuid(s: Store, log: Log, hi: nat, n: Name, n': Name)
    requires hi <= |log| && Owned(s, log) && DistinctUuids(log) && n in Fold(log, hi)
    requires n' in s.live && s.live[n'].uuid == Fold(log, hi)[n].uuid
    ensures n' == n && s.live[n].createdSeq == Fold(log, hi)[n].created && s.live[n].mapping == Fold(log, hi)[n].mapping
  {
    FoldOwner(log, hi, n);
    SameUuid(log, Fold(log, hi)[n].created - 1, s.live[n'].createdSeq - 1);
  }

  /** A command for another collection changes nothing about `n`. */
  lemma OtherUnchanged(s: Store, log: Log, k: nat, n: Name)
    requires k < |log| && Owned(s, log) && DistinctUuids(log)
    requires ApplyCommand(s, k + 1, log[k]).Ok?
    requires log[k].Blank? || log[k].name != n
    ensures var t := ApplyCommand(s, k + 1, log[k]).value;
            && Get(t.live, n) == Get(s.live, n)
            && (n in s.live ==> s.live[n].uuid in t.dirs && t.dirs[s.live[n].uuid] == s.dirs[s.live[n].uuid])
    ensures Get(Fold(log, k + 1), n) == Get(Fold(log, k), n)
  {
    if log[k].Drop? && log[k].name in s.live && n in s.live && s.live[n].uuid == s.live[log[k].name].uuid {
      OwnedUuids(s, log, n, log[k].name);
    }
  }

  lemma OtherDir(s: Store, log: Log, k: nat, hi: nat, n: Name)
    requires k < hi <= |log| && Owned(s, log) && DistinctUuids(log)
    requires ApplyCommand(s, k + 1, log[k]).Ok?
    requires log[k].Blank? || log[k].name != n
    requires n in Fold(log, hi)
    ensures var t := ApplyCommand(s, k + 1, log[k]).value; var u := Fold(log, hi)[n].uuid;
            Get(t.dirs, u) == Get(s.dirs, u) && (u in LiveUuids(t.live) <==> u in LiveUuids(s.live))
    ensures Fold(log, hi)[n].created != k + 1
  {
    var t := ApplyCommand(s, k + 1, log[k]).value;
    var c := Fold(log, hi)[n];
    FoldOwner(log, hi, n);
    OwnedStep(s, log, k);
    OtherUnchanged(s, log, k, n);
    if log[k].Drop? && log[k].name in s.live && s.live[log[k].name].uuid == c.uuid {
      FinalUuid(s, log, hi, n, log[k].name);
    }
    if c.uuid in LiveUuids(s.live) {
      var n' :| n' in s.live && s.live[n'].uuid == c.uuid;
      FinalUuid(s, log, hi, n, n');
      assert n in t.live && t.live[n].uuid == c.uuid;
    }
    if c.uuid in LiveUuids(t.live) {
      var n' :| n' in t.live && t.live[n'].uuid == c.uuid;
      FinalUuid(t, log, hi, n, n');
      assert n in s.live && s.live[n].uuid == c.uuid;
    }
  }

  lemma ReadyOther(s: Store, log: Log, k: nat, hi: nat, n: Name)
    requires k < hi <= |log| && Owned(s, log) && DistinctUuids(log)
    requires ApplyCommand(s, k + 1, log[k]).Ok?
    requires log[k].Blank? || log[k].name != n
    ensures ReadyName(s, log, k, hi, n) <==> ReadyName(ApplyCommand(s, k + 1, log[k]).value, log, k + 1, hi, n)
  {
    OtherUnchanged(s, log, k, n);
    if n in s.live {
      SettledShift(log, n, s.live[n].buffer, k, MarkIndex(s, n), hi);
    }
    assert NoDrop(log, n, k, hi) <==> NoDrop(log, n, k + 1, hi);
    if n in Fold(log, hi) {
      OtherDir(s, log, k, hi, n);
    }
  }

  /** Replaying a drop of `n`: afterwards nothing is known of `n` but what is still to come. */
  lemma ReadyDrop(s: Store, log: Log, k: nat, hi: nat, n: Name)
    requires k < hi <= |log| && Owned(s, log) && DistinctUuids(log)
    requires log[k] == Drop(n)
    ensures ReadyName(s, log, k, hi, n) <==> ReadyName(ApplyCommand(s, k + 1, log[k]).value, log, k + 1, hi, n)
  {
    var t := ApplyCommand(s, k + 1, log[k]).value;
    assert !NoDrop(log, n, k, hi);
    assert n !in t.live && n !in Fold(log, k + 1);
    if n in Fold(log, hi) {
      var c := Fold(log, hi)[n];
      FoldOwner(log, hi, n);
      if c.created <= k {
        FoldSince(log, n, k, hi);
        assert false;
      }
      assert c.created != k + 1;
      OwnedStep(s, log, k);
      if c.uuid in LiveUuids(t.live) {
        var n' :| n' in t.live && t.live[n'].uuid == c.uuid;
        FinalUuid(t, log, hi, n, n');
        assert false;
      }
      if c.uuid in LiveUuids(s.live) {
        var n' :| n' in s.live && s.live[n'].uuid == c.uuid;
        FinalUuid(s, log, hi, n, n');
        assert c.uuid !in t.dirs;
      } else {
        assert n in s.live ==> s.live[n].uuid in LiveUuids(s.live);
        assert Get(t.dirs, c.uuid) == Get(s.dirs, c.uuid);
      }
    }
  }

  /** Replaying a create over a live entry: already there, so nothing happens. */
  lemma ReadyCreateLive(s: Store, log: Log, k: nat, hi: nat, n: Name)
    requires k < hi <= |log| && Owned(s, log) && DistinctUuids(log)
    requires log[k].Create? && log[k].name == n && n in s.live
    ensures ReadyName(s, log, k, hi, n) <==> ReadyName(s, log, k + 1, hi, n)
  {
    SettledShift(log, n, s.live[n].buffer, k, MarkIndex(s, n), hi);
    assert NoDrop(log, n, k, hi) <==> NoDrop(log, n, k + 1, hi);
    assert n in Fold(log, k + 1);
    if n in Fold(log, hi) && Fold(log, hi)[n].created == k + 1 {
      FoldSince(log, n, k + 1, hi);
      if s.live[n].uuid == Fold(log, hi)[n].uuid {
        assert Fold(log, hi)[n].uuid in LiveUuids(s.live);
      }
    }
  }

  /** Replaying a create that installs the collection. */
  lemma ReadyCreateNew(s: Store, log: Log, k: nat, hi: nat, n: Name)
    requires k < hi <= |log| && Owned(s, log) && DistinctUuids(log)
    requires log[k].Create? && log[k].name == n && n !in s.live
    ensures ReadyName(s, log, k, hi, n) <==> ReadyName(ApplyCommand(s, k + 1, log[k]).value, log, k + 1, hi, n)
  {
    var t := ApplyCommand(s, k + 1, log[k]).value;
    var u := log[k].uuid;
    assert NoDrop(log, n, k, hi) <==> NoDrop(log, n, k + 1, hi);
    OwnedStep(s, log, k);
    if n in Fold(log, hi) {
      var c := Fold(log, hi)[n];
      FoldOwner(log, hi, n);
      if c.uuid in LiveUuids(s.live) {
        var n' :| n' in s.live && s.live[n'].uuid == c.uuid;
        FinalUuid(s, log, hi, n, n');
        assert false;
      }
      if c.created == k + 1 {
        FoldSince(log, n, k + 1, hi);
        assert c.uuid == u;
        ReadyInstalled(s, log, k, hi, n);
      } else {
        if c.uuid == u {
          SameUuid(log, c.created - 1, k);
        }
        if c.uuid in LiveUuids(t.live) {
          var n' :| n' in t.live && t.live[n'].uuid == c.uuid;
          FinalUuid(t, log, hi, n, n');
        }
        if c.created <= k {
          FoldSince(log, n, k, hi);
        } else if NoDrop(log, n, k, hi) {
          FoldKeeps(log, n, k + 1, hi);
          FoldOwner(log, k + 1, n);
          assert false;
        }
      }
    } else if NoDrop(log, n, k, hi) {
      FoldKeeps(log, n, k + 1, hi);
      assert false;
    }
  }

  lemma ReadyInstalled(s: Store, log: Log, k: nat, hi: nat, n: Name)
    requires k < hi <= |log| && Owned(s, log) && DistinctUuids(log)
    requires log[k].Create? && log[k].name == n && n !in s.live
    requires n in Fold(log, hi) && Fold(log, hi)[n].created == k + 1 && Fold(log, hi)[n].uuid == log[k].uuid
    requires log[k].uuid !in LiveUuids(s.live)
    ensures ReadyName(s, log, k, hi, n) <==> ReadyName(ApplyCommand(s, k + 1, log[k]).value, log, k + 1, hi, n)
  {
    var t := ApplyCommand(s, k + 1, log[k]).value;
    var u := log[k].uuid;
    FoldSince(log, n, k + 1, hi);
    assert NoDrop(log, n, k, hi);
    if n in Fold(log, k) {
      FoldOwner(log, k, n);
      assert false;
    }
    if u !in s.dirs {
      forall id ensures Settled(log, n, id, Get(t.live[n].buffer, id), k + 1, hi) {
        TouchedIsDoc(log, n, id, k + 1, hi);
      }
    }
  }

  /** Replaying a document command of `n`. */
  lemma ReadyDoc(s: Store, log: Log, k: nat, hi: nat, n: Name)
    requires k < hi <= |log| && Owned(s, log) && DistinctUuids(log)
    requires (log[k].Index? || log[k].Delete?) && log[k].name == n
    requires ApplyCommand(s, k + 1, log[k]).Ok?
    ensures ReadyName(s, log, k, hi, n) <==> ReadyName(ApplyCommand(s, k + 1, log[k]).value, log, k + 1, hi, n)
  {
    var t := ApplyCommand(s, k + 1, log[k]).value;
    assert NoDrop(log, n, k, hi) <==> NoDrop(log, n, k + 1, hi);
    assert LiveUuids(t.live) == LiveUuids(s.live) by {
      assert t.live.Keys == s.live.Keys && forall n' :: n' in s.live ==> t.live[n'].uuid == s.live[n'].uuid;
    }
    if n in Fold(log, hi) {
      FoldOwner(log, hi, n);
    }
    if n in s.live && NoDrop(log, n, k, hi) && k + 1 > MarkIndex(s, n) {
      ReadyBuffered(s, log, k, hi, n);
    }
  }

  lemma ReadyBuffered(s: Store, log: Log, k: nat, hi: nat, n: Name)
    requires k < hi <= |log| && n in s.live && MarkIndex(s, n) <= k
    requires (log[k].Index? || log[k].Delete?) && log[k].name == n
    requires ApplyCommand(s, k + 1, log[k]).Ok? && NoDrop(log, n, k, hi)
    ensures var t := ApplyCommand(s, k + 1, log[k]).value;
            && n in t.live && MarkIndex(t, n) == MarkIndex(s, n)
            && (SettledDocs(log, n, s.live[n].buffer, k, hi) <==> SettledDocs(log, n, t.live[n].buffer, k + 1, hi))
  {
    var t := ApplyCommand(s, k + 1, log[k]).value;
    var docs, docs' := s.live[n].buffer, t.live[n].buffer;
    forall id ensures Settled(log, n, id, Get(docs, id), k, hi) <==> Settled(log, n, id, Get(docs', id), k + 1, hi) {
      TouchedFirst(log, n, id, Get(docs, id), k, hi);
      assert Get(docs', id) == After(log[k], n, id, Get(docs, id));
    }
  }

  /** Readiness is invariant under replay, in both directions. */
  lemma ReadyStep(s: Store, log: Log, k: nat, hi: nat)
    requires k < hi <= |log| && Owned(s, log) && DistinctUuids(log)
    requires ApplyCommand(s, k + 1, log[k]).Ok?
    ensures Ready(s, log, k, hi) <==> Ready(ApplyCommand(s, k + 1, log[k]).value, log, k + 1, hi)
  {
    var t := ApplyCommand(s, k + 1, log[k]).value;
    forall n ensures ReadyName(s, log, k, hi, n) <==> ReadyName(t, log, k + 1, hi, n) {
      if log[k].Blank? || log[k].name != n {
        ReadyOther(s, log, k, hi, n);
      } else if log[k].Drop? {
        ReadyDrop(s, log, k, hi, n);
      } else if log[k].Create? {
        if n in s.live {
          ReadyCreateLive(s, log, k, hi, n);
        } else {
          ReadyCreateNew(s, log, k, hi, n);
        }
      } else {
        ReadyDoc(s, log, k, hi, n);
      }
    }
    var next := k + 1;
    if Ready(s, log, k, hi) {
      forall n ensures ReadyName(t, log, next, hi, n) { assert ReadyName(s, log, k, hi, n); }
    }
    if Ready(t, log, next, hi) {
      forall n ensures ReadyName(s, log, k, hi, n) { assert ReadyName(t, log, next, hi, n); }
    }
  }

  /** At the end of the range, ready means exact. */
  lemma ReadyIsExact(s: Store, log: Log, hi: nat)
    requires hi <= |log| && Owned(s, log) && DistinctUuids(log)
    ensures Ready(s, log, hi, hi) <==> Exact(s, log, hi)
  {
    if Ready(s, log, hi, hi) {
      forall n ensures n in s.live <==> n in Fold(log, hi) {
        assert ReadyName(s, log, hi, hi, n);
      }
      forall n | n in s.live ensures CollOf(s.live[n]) == Fold(log, hi)[n] {
        assert ReadyName(s, log, hi, hi, n);
        FinalUuid(s, log, hi, n, n);
        SettledIsEqual(log, n, s.live[n].buffer, Max(hi, MarkIndex(s, n)), hi);
      }
    }
    if Exact(s, log, hi) {
      forall n ensures ReadyName(s, log, hi, hi, n) {
        if n in Fold(log, hi) {
          FoldOwner(log, hi, n);
          assert CollOf(s.live[n]) == Fold(log, hi)[n];
        }
      }
    }
  }

  lemma SettledIsEqual(log: Log, n: Name, docs: Docs, lo: nat, hi: nat)
    requires hi <= lo && hi <= |log| && n in Fold(log, hi)
    requires SettledDocs(log, n, docs, lo, hi)
    ensures docs == Fold(log, hi)[n].docs
  {
    forall id ensures Get(docs, id) == Get(Fold(log, hi)[n].docs, id) {
      assert Settled(log, n, id, Get(docs, id), lo, hi);
    }
    forall id ensures id in docs <==> id in Fold(log, hi)[n].docs {
      assert Get(docs, id) == Get(Fold(log, hi)[n].docs, id);
    }
    forall id | id in docs ensures docs[id] == Fold(log, hi)[n].docs[id] {
      assert Get(docs, id) == Get(Fold(log, hi)[n].docs, id);
    }
  }

  /**
   The exact condition for replay to converge: it ends in the fold of the log if and only if the
   starting store is ready.
   */
  lemma {:induction false} ReplayConvergesIff(s: Store, log: Log, k: nat, hi: nat)
    requires k <= hi <= |log| && Owned(s, log) && DistinctUuids(log)
    requires Replay(s, log, k, hi).Ok?
    ensures Ready(s, log, k, hi) <==> Exact(Replay(s, log, k, hi).value, log, hi)
    ensures Owned(Replay(s, log, k, hi).value, log)
  {
    ReplayReady(s, log, k, hi, hi);
    ReadyIsExact(Replay(s, log, k, hi).value, log, hi);
  }

  lemma {:induction false} ReplayReady(s: Store, log: Log, k: nat, j: nat, hi: nat)
    requires k <= j <= hi <= |log| && Owned(s, log) && DistinctUuids(log)
    requires Replay(s, log, k, j).Ok?
    ensures var t := Replay(s, log, k, j).value;
            Owned(t, log) && (Ready(s, log, k, hi) <==> Ready(t, log, j, hi))
    decreases j
  {
    if k < j {
      ReplayReady(s, log, k, j - 1, hi);
      var t := Replay(s, log, k, j - 1).value;
      OwnedStep(t, log, j - 1);
      ReadyStep(t, log, j - 1, hi);
    }
  }

  // ---------------------------------------------------------------- failure

  /** From a ready store only a document command whose collection is dropped later can fail. */
  lemma FailsOnlyBeforeDrop(s: Store, log: Log, k: nat, hi: nat)
    requires k < hi <= |log| && Owned(s, log) && WellFormed(log) && Ready(s, log, k, hi)
    requires ApplyCommand(s, k + 1, log[k]).Fail?
    ensures log[k].Index? && !NoDrop(log, log[k].name, k, hi)
  {
    var n := log[k].name;
    if NoDrop(log, n, k, hi) {
      assert ReadyName(s, log, k, hi, n) && Admitted(log, k);
      FoldKeeps(log, n, k, hi);
      FinalUuid(s, log, hi, n, n);
      assert false;
    }
  }

  /** What replay has under a name: the instance, its mapping and the mark below which it skips documents. */
  datatype Standing = Standing(uuid: Uuid, mapping: Mapping, mark: nat)

  /** The mark an instance of `n` starts with when replay installs it: that of an orphaned directory, if there is one. */
  function InstalledMark(s: Store, n: Name, u: Uuid): nat {
    if u in s.dirs && !(n in s.live && s.live[n].uuid == u) then MarkOf(s.dirs[u]).index else 0
  }

  /** What replay from `k` has under `n` before position `j + 1`: only creates and drops of `n` matter. */
  function InForce(s: Store, log: Log, k: nat, j: nat, n: Name): Option<Standing>
    requires k <= j <= |log|
    decreases j
  {
    if j == k then
      if n in s.live then Some(Standing(s.live[n].uuid, s.live[n].mapping, MarkIndex(s, n))) else None
    else
      var before := InForce(s, log, k, j - 1, n);
      if log[j - 1] == Drop(n) then None
      else if before.None? && log[j - 1].Create? && log[j - 1].name == n then
        Some(Standing(log[j - 1].uuid, log[j - 1].mapping, InstalledMark(s, n, log[j - 1].uuid)))
      else before
  }

  /** The create at position `c + 1` is the one replay installs: nothing is there for it to run into. */
  predicate Installs(s: Store, log: Log, k: nat, c: nat, n: Name)
    requires k <= c < |log|
  {
    && log[c].Create? && log[c].name == n
    && (n in s.live ==> !NoDrop(log, n, k, c))
    && forall i :: k <= i < c && log[i].Create? && log[i].name == n ==> !NoDrop(log, n, i, c)
  }

  /** The document at position `j + 1` does not fit the collection it would be applied to. */
  predicate Misfit(log: Log, j: nat, mapping: Mapping, mark: nat)
    requires j < |log|
  {
    log[j].Index? && mark <= j && !Buildable(mapping, log[j].source)
  }

  /**
   The document command at position `j + 1` would be applied to a mapping it does not fit: that of
   the entry replay started with, while no drop has been replayed, or that of the create replay
   installed last, whatever the log itself says of that create.
   */
  predicate StuckAt(s: Store, log: Log, k: nat, j: nat)
    requires k <= j < |log|
  {
    log[j].Index? &&
    var n := log[j].name;
    || (n in s.live && NoDrop(log, n, k, j) && Misfit(log, j, s.live[n].mapping, MarkIndex(s, n)))
    || exists c :: k <= c < j && Installs(s, log, k, c, n) && NoDrop(log, n, c, j) &&
         Misfit(log, j, log[c].mapping, InstalledMark(s, n, log[c].uuid))
  }

  // ---------------------------------------------------------------- what is in force

  /** Without anything in force, a drop followed every create, and the starting entry. */
  lemma {:induction false} NoneInForce(s: Store, log: Log, k: nat, j: nat, n: Name)
    requires k <= j <= |log|
    ensures InForce(s, log, k, j, n).None? <==>
              && (n in s.live ==> !NoDrop(log, n, k, j))
              && forall i :: k <= i < j && log[i].Create? && log[i].name == n ==> !NoDrop(log, n, i, j)
    decreases j
  {
    if k < j {
      NoneInForce(s, log, k, j - 1, n);
      forall i | k <= i < j ensures NoDrop(log, n, i, j) <==> NoDrop(log, n, i, j - 1) && log[j - 1] != Drop(n) {
      }
    }
  }

  /** What is in force is the starting entry or the last create that was installed. */
  lemma {:induction false} InForceFrom(s: Store, log: Log, k: nat, j: nat, n: Name, f: Standing)
    requires k <= j <= |log|
    ensures InForce(s, log, k, j, n) == Some(f) <==>
              || (n in s.live && NoDrop(log, n, k, j) && f == Standing(s.live[n].uuid, s.live[n].mapping, MarkIndex(s, n)))
              || exists c :: k <= c < j && Installs(s, log, k, c, n) && NoDrop(log, n, c, j) &&
                   f == Standing(log[c].uuid, log[c].mapping, InstalledMark(s, n, log[c].uuid))
    decreases j
  {
    if k < j {
      InForceFrom(s, log, k, j - 1, n, f);
      NoneInForce(s, log, k, j - 1, n);
      forall i | k <= i < j ensures NoDrop(log, n, i, j) <==> NoDrop(log, n, i, j - 1) && log[j - 1] != Drop(n) {
      }
    }
  }

  lemma StuckIff(s: Store, log: Log, k: nat, j: nat)
    requires k <= j < |log|
    ensures StuckAt(s, log, k, j) <==>
              log[j].Index? && var f := InForce(s, log, k, j, log[j].name); f.Some? && Misfit(log, j, f.value.mapping, f.value.mark)
  {
    if log[j].Index? {
      var n := log[j].name;
      var f := InForce(s, log, k, j, n);
      if f.Some? {
        InForceFrom(s, log, k, j, n, f.value);
      }
      if n in s.live && NoDrop(log, n, k, j) {
        InForceFrom(s, log, k, j, n, Standing(s.live[n].uuid, s.live[n].mapping, MarkIndex(s, n)));
      }
      if c :| k <= c < j && Installs(s, log, k, c, n) && NoDrop(log, n, c, j) && Misfit(log, j, log[c].mapping, InstalledMark(s, n, log[c].uuid)) {
        InForceFrom(s, log, k, j, n, Standing(log[c].uuid, log[c].mapping, InstalledMark(s, n, log[c].uuid)));
      }
    }
  }

  /** Replay has under `n` exactly what is in force. */
  predicate Standings(s: Store, t: Store, log: Log, k: nat, j: nat, n: Name)
    requires k <= j <= |log|
  {
    var f := InForce(s, log, k, j, n);
    if n in t.live then f == Some(Standing(t.live[n].uuid, t.live[n].mapping, MarkIndex(t, n))) else f.None?
  }

  /** The directory a coming create of `n` will find. */
  predicate DirAhead(s: Store, t: Store, log: Log, j: nat, n: Name, c: nat)
    requires j <= c < |log|
  {
    log[c].Create? && log[c].name == n && !(n in t.live && t.live[n].uuid == log[c].uuid) ==>
      var u := log[c].uuid;
      if n in s.live && s.live[n].uuid == u then u !in t.dirs else Get(t.dirs, u) == Get(s.dirs, u)
  }

  lemma StandingStep(s: Store, t: Store, log: Log, k: nat, j: nat, n: Name)
    requires k <= j < |log| && Owned(t, log) && DistinctUuids(log) && ApplyCommand(t, j + 1, log[j]).Ok?
    requires Standings(s, t, log, k, j, n) && DirAhead(s, t, log, j, n, j)
    ensures Standings(s, ApplyCommand(t, j + 1, log[j]).value, log, k, j + 1, n)
  {
    if log[j].Blank? || log[j].name != n {
      OtherUnchanged(t, log, j, n);
    }
  }

  lemma DirStep(s: Store, t: Store, log: Log, k: nat, j: nat, n: Name, c: nat)
    requires k <= j < c < |log| && Owned(t, log) && DistinctUuids(log) && ApplyCommand(t, j + 1, log[j]).Ok?
    requires DirAhead(s, t, log, j, n, c)
    requires log[c].Create? && n in t.live && t.live[n].uuid == log[c].uuid ==> n in s.live && s.live[n].uuid == log[c].uuid
    ensures DirAhead(s, ApplyCommand(t, j + 1, log[j]).value, log, j + 1, n, c)
  {
    var v := ApplyCommand(t, j + 1, log[j]).value;
    if log[c].Create? && log[c].name == n {
      var u := log[c].uuid;
      if log[j].Create? {
        assert log[j].uuid != u;
      }
      if log[j].Drop? && log[j].name in t.live && t.live[log[j].name].uuid == u {
        SameUuid(log, t.live[log[j].name].createdSeq - 1, c);
      }
    }
  }

  /** An entry that is ahead of the replay is the one replay started with. */
  lemma AheadIsStart(s: Store, t: Store, log: Log, k: nat, j: nat, n: Name, c: nat)
    requires k <= j <= c < |log| && DistinctUuids(log) && Standings(s, t, log, k, j, n)
    requires log[c].Create? && n in t.live && t.live[n].uuid == log[c].uuid
    ensures n in s.live && s.live[n].uuid == log[c].uuid
  {
    InForceFrom(s, log, k, j, n, InForce(s, log, k, j, n).value);
  }

  /** Replay follows what is in force, name by name. */
  lemma {:induction false} ReplayStands(s: Store, log: Log, k: nat, j: nat, n: Name)
    requires k <= j <= |log| && Owned(s, log) && DistinctUuids(log) && Replay(s, log, k, j).Ok?
    ensures var t := Replay(s, log, k, j).value;
            && Owned(t, log) && Standings(s, t, log, k, j, n)
            && forall c {:trigger DirAhead(s, t, log, j, n, c)} :: j <= c < |log| ==> DirAhead(s, t, log, j, n, c)
    decreases j
  {
    if k < j {
      var i := j - 1;
      ReplayStands(s, log, k, i, n);
      var t := Replay(s, log, k, i).value;
      var v := Replay(s, log, k, j).value;
      OwnedStep(t, log, i);
      assert DirAhead(s, t, log, i, n, i);
      StandingStep(s, t, log, k, i, n);
      forall c | j <= c < |log| ensures DirAhead(s, v, log, j, n, c) {
        assert DirAhead(s, t, log, i, n, c);
        if log[c].Create? && n in t.live && t.live[n].uuid == log[c].uuid {
          AheadIsStart(s, t, log, k, i, n, c);
        }
        DirStep(s, t, log, k, i, n, c);
      }
    }
  }

  // ---------------------------------------------------------------- exactly when replay fails

  /** A successful replay up to `j` fails on the next command exactly when it is stuck there. */
  lemma StepFailsIff(s: Store, log: Log, k: nat, j: nat)
    requires k <= j < |log| && Owned(s, log) && DistinctUuids(log) && Replay(s, log, k, j).Ok?
    ensures Replay(s, log, k, j + 1).Fail? <==> StuckAt(s, log, k, j)
  {
    StuckIff(s, log, k, j);
    if log[j].Index? {
      ReplayStands(s, log, k, j, log[j].name);
    }
  }

  /**
   The exact condition for replay to fail, for every log: some document command is met by a mapping
   it does not fit.
   */
  lemma {:induction false} ReplayFailsIff(s: Store, log: Log, k: nat, hi: nat)
    requires k <= hi <= |log| && Owned(s, log) && DistinctUuids(log)
    ensures Replay(s, log, k, hi).Fail? <==> exists j :: k <= j < hi && StuckAt(s, log, k, j)
    decreases hi
  {
    if k < hi {
      ReplayFailsIff(s, log, k, hi - 1);
      if Replay(s, log, k, hi - 1).Ok? {
        StepFailsIff(s, log, k, hi - 1);
      }
    }
  }
}
