/**
 Replicated commands and what a list of them means. `Fold` is the reference the whole project is
 measured against: the catalog a reader expects after the first `k` commands of a log.
 */
module Commands {
  import opened Outcome
  import opened Mappings
  import opened Documents

  /**
   Collection names, document ids and uuids enter only through equality, so they are numbered.
   Their textual form (name rules, uuid syntax) is not part of this model.
   */
  type Name = int
  type Id = int
  type Uuid = int

  /** `Blank` stands for Raft blank and membership entries, which do not reach the catalog. */
  datatype Command =
    | Create(name: Name, uuid: Uuid, mapping: Mapping)
    | Drop(name: Name)
    | Index(name: Name, id: Id, source: Source)
    | Delete(name: Name, id: Id)
    | Blank

  /** Position `k` (counting from 1) of a log is `log[k - 1]`. */
  type Log = seq<Command>

  type Docs = map<Id, Source>

  /** A collection as the log defines it; `created` is the position of its create command. */
  datatype Coll = Coll(uuid: Uuid, created: nat, mapping: Mapping, docs: Docs)

  type Collections = map<Name, Coll>

  function Effect(c: Collections, k: nat, cmd: Command): Collections {
    match cmd
    case Create(n, u, m) => if n in c then c else c[n := Coll(u, k, m, map[])]
    case Drop(n) => c - {n}
    case Index(n, id, src) => if n in c then c[n := c[n].(docs := c[n].docs[id := src])] else c
    case Delete(n, id) => if n in c then c[n := c[n].(docs := c[n].docs - {id})] else c
    case Blank => c
  }

  /** The catalog after the first `k` commands. */
  function Fold(log: Log, k: nat): Collections
    requires k <= |log|
  {
    if k == 0 then map[] else Effect(Fold(log, k - 1), k, log[k - 1])
  }

  /** The document `id` of collection `n` after `k` commands. */
  function DocAt(log: Log, k: nat, n: Name, id: Id): Option<Source>
    requires k <= |log|
  {
    if n in Fold(log, k) then Get(Fold(log, k)[n].docs, id) else None
  }

  predicate Touches(cmd: Command, n: Name, id: Id) {
    (cmd.Index? || cmd.Delete?) && cmd.name == n && cmd.id == id
  }

  /** No drop of `n` among the commands at positions `lo + 1 ..= hi`. */
  predicate NoDrop(log: Log, n: Name, lo: nat, hi: nat)
    requires hi <= |log|
  {
    forall i :: lo <= i < hi ==> log[i] != Drop(n)
  }

  /** No document command for `id` of `n` at positions `lo + 1 ..= hi`. */
  predicate Untouched(log: Log, n: Name, id: Id, lo: nat, hi: nat)
    requires hi <= |log|
  {
    forall i :: lo <= i < hi ==> !Touches(log[i], n, id)
  }

  /** Each create carries its own uuid. */
  predicate DistinctUuids(log: Log) {
    forall i, j :: 0 <= i < j < |log| && log[i].Create? && log[j].Create? ==> log[i].uuid != log[j].uuid
  }

  predicate Buildable(m: Mapping, src: Source) {
    src.parsed.Some? && Builds(m, src.parsed.value)
  }

  /** The document command at position `k + 1` names a live collection, whose mapping it fits. */
  predicate Admitted(log: Log, k: nat)
    requires k < |log|
  {
    (log[k].Index? || log[k].Delete? ==> log[k].name in Fold(log, k)) &&
    (log[k].Index? ==> Buildable(Fold(log, k)[log[k].name].mapping, log[k].source))
  }

  /**
   Fresh uuids, and only admitted document commands. On one node admission gives this, since it
   checks under the lock that orders the log. In a cluster it is an assumption: a document command
   is checked before it is committed, and its collection may be dropped in between.
   */
  predicate WellFormed(log: Log) {
    DistinctUuids(log) && forall k {:trigger Admitted(log, k)} :: 0 <= k < |log| ==> Admitted(log, k)
  }

  // ---------------------------------------------------------------- facts about the fold

  /** A live collection is the one its create command made. */
  lemma {:induction false} FoldOwner(log: Log, k: nat, n: Name)
    requires k <= |log| && n in Fold(log, k)
    ensures var c := Fold(log, k)[n]; 1 <= c.created <= k && log[c.created - 1] == Create(n, c.uuid, c.mapping)
  {
    if n in Fold(log, k - 1) {
      FoldOwner(log, k - 1, n);
    }
  }

  /** Without a drop a collection keeps its identity. */
  lemma {:induction false} FoldKeeps(log: Log, n: Name, lo: nat, hi: nat)
    requires lo <= hi <= |log| && n in Fold(log, lo) && NoDrop(log, n, lo, hi)
    ensures n in Fold(log, hi)
    ensures Fold(log, hi)[n].uuid == Fold(log, lo)[n].uuid
    ensures Fold(log, hi)[n].created == Fold(log, lo)[n].created
    ensures Fold(log, hi)[n].mapping == Fold(log, lo)[n].mapping
    decreases hi
  {
    if lo < hi {
      FoldKeeps(log, n, lo, hi - 1);
      assert log[hi - 1] != Drop(n);
    }
  }

  /** A collection live at `hi` was live, with the same identity, since its creation. */
  lemma {:induction false} FoldSince(log: Log, n: Name, k: nat, hi: nat)
    requires hi <= |log| && n in Fold(log, hi) && Fold(log, hi)[n].created <= k <= hi
    ensures n in Fold(log, k) && NoDrop(log, n, k, hi)
    ensures Fold(log, k)[n].uuid == Fold(log, hi)[n].uuid
    ensures Fold(log, k)[n].created == Fold(log, hi)[n].created
    ensures Fold(log, k)[n].mapping == Fold(log, hi)[n].mapping
    decreases hi
  {
    if k < hi {
      FoldOwner(log, hi, n);
      assert n in Fold(log, hi - 1) && log[hi - 1] != Drop(n);
      FoldSince(log, n, k, hi - 1);
    }
  }

  /** No create of `n` among the commands at positions `lo + 1 ..= hi`. */
  predicate NoCreate(log: Log, n: Name, lo: nat, hi: nat)
    requires hi <= |log|
  {
    forall i :: lo <= i < hi ==> !(log[i].Create? && log[i].name == n)
  }

  /** Nothing creates `n` since a drop of it, or since the beginning. */
  predicate NeverCreated(log: Log, n: Name, k: nat)
    requires k <= |log|
  {
    exists d: nat :: d <= k && (d == 0 || log[d - 1] == Drop(n)) && NoCreate(log, n, d, k)
  }

  /** What it is for a collection not to exist, without the fold. */
  lemma {:induction false} AbsentIff(log: Log, k: nat, n: Name)
    requires k <= |log|
    ensures n !in Fold(log, k) <==> NeverCreated(log, n, k)
  {
    if k > 0 {
      AbsentIff(log, k - 1, n);
      if n !in Fold(log, k - 1) && n !in Fold(log, k) {
        var d: nat :| d <= k - 1 && (d == 0 || log[d - 1] == Drop(n)) && NoCreate(log, n, d, k - 1);
        assert NoCreate(log, n, d, k);
      } else if log[k - 1] == Drop(n) {
        assert NoCreate(log, n, k, k);
      }
      if NeverCreated(log, n, k) && log[k - 1] != Drop(n) {
        var d: nat :| d <= k && (d == 0 || log[d - 1] == Drop(n)) && NoCreate(log, n, d, k);
        assert NoCreate(log, n, d, k - 1);
      }
    } else {
      assert NoCreate(log, n, 0, 0);
    }
  }

  /** And to exist: it is the one made by a create that found none, and there is no drop since. */
  lemma LiveIff(log: Log, k: nat, n: Name, c: nat, u: Uuid, m: Mapping)
    requires k <= |log|
    ensures (exists docs :: n in Fold(log, k) && Fold(log, k)[n] == Coll(u, c, m, docs)) <==>
            1 <= c <= k && log[c - 1] == Create(n, u, m) && NeverCreated(log, n, c - 1) && NoDrop(log, n, c, k)
  {
    if n in Fold(log, k) && Fold(log, k)[n].created == c {
      FoldOwner(log, k, n);
      FoldSince(log, n, c, k);
      AbsentIff(log, c - 1, n);
      if n in Fold(log, c - 1) {
        FoldOwner(log, c - 1, n);
      }
    }
    if 1 <= c <= k && log[c - 1] == Create(n, u, m) && NeverCreated(log, n, c - 1) && NoDrop(log, n, c, k) {
      AbsentIff(log, c - 1, n);
      FoldKeeps(log, n, c, k);
      var coll := Fold(log, k)[n];
      assert coll == Coll(u, c, m, coll.docs);
    }
  }

  /** Untouched documents of a collection that is not dropped keep their value. */
  lemma {:induction false} FoldUntouched(log: Log, n: Name, id: Id, lo: nat, hi: nat)
    requires lo <= hi <= |log| && n in Fold(log, lo)
    requires NoDrop(log, n, lo, hi) && Untouched(log, n, id, lo, hi)
    ensures DocAt(log, hi, n, id) == DocAt(log, lo, n, id)
    decreases hi
  {
    if lo < hi {
      FoldUntouched(log, n, id, lo, hi - 1);
      FoldKeeps(log, n, lo, hi - 1);
      assert log[hi - 1] != Drop(n) && !Touches(log[hi - 1], n, id);
    }
  }

  /** A collection has no documents at its creation. */
  lemma BornEmpty(log: Log, n: Name, c: nat)
    requires 1 <= c <= |log| && n in Fold(log, c) && Fold(log, c)[n].created == c
    ensures Fold(log, c)[n].docs == map[]
  {
    if n in Fold(log, c - 1) {
      FoldOwner(log, c - 1, n);
    }
  }

  /** The last command since the creation that touches `id` writes this source. */
  predicate LastWritten(log: Log, n: Name, id: Id, created: nat, k: nat, src: Source)
    requires k <= |log|
  {
    exists i :: created <= i < k && log[i] == Index(n, id, src) && Untouched(log, n, id, i + 1, k)
  }

  /** What it is for a document to be there, without the fold. */
  lemma DocIff(log: Log, k: nat, n: Name, id: Id, src: Source)
    requires k <= |log|
    ensures DocAt(log, k, n, id) == Some(src) <==> n in Fold(log, k) && LastWritten(log, n, id, Fold(log, k)[n].created, k, src)
  {
    if n in Fold(log, k) {
      FoldOwner(log, k, n);
      DocSince(log, k, n, id, src, Fold(log, k)[n].created);
    }
  }

  lemma {:induction false} DocSince(log: Log, k: nat, n: Name, id: Id, src: Source, created: nat)
    requires 1 <= created <= k <= |log| && n in Fold(log, k) && Fold(log, k)[n].created == created
    ensures DocAt(log, k, n, id) == Some(src) <==> LastWritten(log, n, id, created, k, src)
    decreases k
  {
    if k == created {
      BornEmpty(log, n, k);
    } else {
      FoldSince(log, n, k - 1, k);
      DocSince(log, k - 1, n, id, src, created);
      if LastWritten(log, n, id, created, k - 1, src) && !Touches(log[k - 1], n, id) {
        var i :| created <= i < k - 1 && log[i] == Index(n, id, src) && Untouched(log, n, id, i + 1, k - 1);
        assert Untouched(log, n, id, i + 1, k);
      }
      if LastWritten(log, n, id, created, k, src) && !Touches(log[k - 1], n, id) {
        var i :| created <= i < k && log[i] == Index(n, id, src) && Untouched(log, n, id, i + 1, k);
        assert Untouched(log, n, id, i + 1, k - 1);
      }
      if Touches(log[k - 1], n, id) && LastWritten(log, n, id, created, k, src) {
        var i :| created <= i < k && log[i] == Index(n, id, src) && Untouched(log, n, id, i + 1, k);
        assert i == k - 1;
      }
      if log[k - 1] == Index(n, id, src) {
        assert Untouched(log, n, id, k - 1 + 1, k);
      }
    }
  }

  /** A uuid names one create command. */
  lemma SameUuid(log: Log, i: nat, j: nat)
    requires DistinctUuids(log) && i < |log| && j < |log|
    requires log[i].Create? && log[j].Create? && log[i].uuid == log[j].uuid
    ensures i == j
  {
  }

  /** A longer log means the same up to where the shorter one ends. */
  lemma {:induction false} FoldPrefix(log: Log, cmd: Command, k: nat)
    requires k <= |log|
    ensures Fold(log + [cmd], k) == Fold(log, k)
  {
    if k > 0 {
      FoldPrefix(log, cmd, k - 1);
    }
  }

  /** So does a shorter one, up to where it ends. */
  lemma {:induction false} FoldTake(log: Log, top: nat, k: nat)
    requires k <= top <= |log|
    ensures Fold(log[..top], k) == Fold(log, k)
  {
    if k > 0 {
      FoldTake(log, top, k - 1);
    }
  }

  /** Blank positions mean nothing. */
  lemma {:induction false} FoldBlank(log: Log, lo: nat, hi: nat)
    requires lo <= hi <= |log| && forall i :: lo <= i < hi ==> log[i].Blank?
    ensures Fold(log, hi) == Fold(log, lo)
    decreases hi
  {
    if lo < hi {
      FoldBlank(log, lo, hi - 1);
    }
  }
}
