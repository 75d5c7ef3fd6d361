/**
 The catalog store: live entries, the uuid directories with their last Tantivy commit, and the
 persisted `catalog.pb`. `ApplyCommand` is `Catalog::apply_command` as a function.
 */
module Stores {
  import opened Outcome
  import opened Mappings
  import opened Commands

  /** The log position a Tantivy commit carries in its payload. */
  datatype LogMark = LogMark(term: nat, node: nat, index: nat)

  const DEFAULT_MARK := LogMark(0, 0, 0)

  /** A collection directory: the documents of its last commit and that commit's mark. */
  datatype Dir = Dir(docs: Docs, mark: Option<LogMark>)

  function MarkOf(d: Dir): LogMark {
    if d.mark.Some? then d.mark.value else DEFAULT_MARK
  }

  /** An open collection. `buffer` is what the next commit would make searchable. */
  datatype Entry = Entry(uuid: Uuid, createdSeq: nat, mapping: Mapping, buffer: Docs)

  datatype SnapshotEntry = SnapshotEntry(uuid: Uuid, createdSeq: nat, mapping: Mapping)

  /** `catalog.pb`. */
  datatype Snapshot = Snapshot(appliedSeq: nat, entries: map<Name, SnapshotEntry>)

  /** The part of a catalog that commands act on: open collections and their directories. */
  datatype Store = Store(live: map<Name, Entry>, dirs: map<Uuid, Dir>)

  const EMPTY_SNAPSHOT := Snapshot(0, map[])

  datatype StoreError =
    | NoDataDir
    | BadDocument(name: Name, id: Id)

  type Outcomes = Result<Store, StoreError>

  // ---------------------------------------------------------------- one collection

  /** The commit mark's index of the collection `n`, 0 before its first commit. */
  function MarkIndex(s: Store, n: Name): nat
    requires n in s.live
  {
    var u := s.live[n].uuid;
    if u in s.dirs then MarkOf(s.dirs[u]).index else 0
  }

  /** `Collection::commit`: the buffer becomes the searchable contents, tagged with `mark`. */
  function CommitOne(s: Store, n: Name, mark: LogMark): Store
    requires n in s.live
  {
    s.(dirs := s.dirs[s.live[n].uuid := Dir(s.live[n].buffer, Some(mark))])
  }

  // ---------------------------------------------------------------- catalog.pb

  function IdentityOf(e: Entry): SnapshotEntry {
    SnapshotEntry(e.uuid, e.createdSeq, e.mapping)
  }

  /** `catalog.pb` lists exactly the live entries. Maps are related key by key throughout. */
  predicate Lists(entries: map<Name, SnapshotEntry>, live: map<Name, Entry>) {
    entries.Keys == live.Keys && forall n :: n in live ==> entries[n] == IdentityOf(live[n])
  }

  /** A create or drop that takes effect rewrites `catalog.pb`; nothing else does. */
  predicate Persists(s: Store, cmd: Command) {
    (cmd.Create? && cmd.name !in s.live) || (cmd.Drop? && cmd.name in s.live)
  }

  /** `catalog.pb` becomes `p'` when `cmd` at position `k` takes the store from `s` to `t`. */
  predicate PersistsTo(p: Snapshot, s: Store, k: nat, cmd: Command, t: Store, p': Snapshot) {
    if Persists(s, cmd) then p'.appliedSeq == k && Lists(p'.entries, t.live) else p' == p
  }

  // ---------------------------------------------------------------- applying commands

  /** `install_collection`: open the directory if it exists, create it otherwise. */
  function Install(s: Store, n: Name, u: Uuid, m: Mapping, createdSeq: nat): Store {
    if u in s.dirs then
      s.(live := s.live[n := Entry(u, createdSeq, m, s.dirs[u].docs)])
    else
      s.(live := s.live[n := Entry(u, createdSeq, m, map[])], dirs := s.dirs[u := Dir(map[], None)])
  }

  function Uninstall(s: Store, n: Name): Store
    requires n in s.live
  {
    s.(live := s.live - {n}, dirs := s.dirs - {s.live[n].uuid})
  }

  function Buffer(s: Store, n: Name, docs: Docs): Store
    requires n in s.live
  {
    s.(live := s.live[n := s.live[n].(buffer := docs)])
  }

  /**
   Applies one committed command at log position `k`. A document command at or below the
   collection's commit mark is skipped; creates of a live name and commands for an absent
   collection change nothing.
   */
  function ApplyCommand(s: Store, k: nat, cmd: Command): Outcomes {
    match cmd
    case Create(n, u, m) =>
      if n in s.live then Ok(s) else Ok(Install(s, n, u, m, k))
    case Drop(n) =>
      if n in s.live then Ok(Uninstall(s, n)) else Ok(s)
    case Index(n, id, src) =>
      if n !in s.live || k <= MarkIndex(s, n) then Ok(s)
      else if !Buildable(s.live[n].mapping, src) then Fail(BadDocument(n, id))
      else Ok(Buffer(s, n, s.live[n].buffer[id := src]))
    case Delete(n, id) =>
      if n !in s.live || k <= MarkIndex(s, n) then Ok(s)
      else Ok(Buffer(s, n, s.live[n].buffer - {id}))
    case Blank => Ok(s)
  }

  /** Applies the commands at positions `lo + 1 ..= hi`, stopping at the first error. */
  function Replay(s: Store, log: Log, lo: nat, hi: nat): Outcomes
    requires lo <= hi <= |log|
    decreases hi
  {
    if lo == hi then Ok(s)
    else
      match Replay(s, log, lo, hi - 1)
      case Fail(e) => Fail(e)
      case Ok(t) => ApplyCommand(t, hi, log[hi - 1])
  }

  // ---------------------------------------------------------------- reopening

  /** The entry as `Collection::open` finds it: its buffer holds the committed documents. */
  function OpenEntry(e: SnapshotEntry, dirs: map<Uuid, Dir>): Entry
    requires e.uuid in dirs
  {
    Entry(e.uuid, e.createdSeq, e.mapping, dirs[e.uuid].docs)
  }

  function LiveUuids(live: map<Name, Entry>): set<Uuid> {
    set n | n in live :: live[n].uuid
  }

  /** `sweep_orphans`: directories no live entry owns leave the root. */
  predicate Sweeps(s: Store, t: Store) {
    t.live == s.live && t.dirs.Keys == s.dirs.Keys * LiveUuids(s.live) &&
    forall u :: u in t.dirs ==> t.dirs[u] == s.dirs[u]
  }

  /** What clients can observe of an open collection. */
  function CollOf(e: Entry): Coll {
    Coll(e.uuid, e.createdSeq, e.mapping, e.buffer)
  }

  /** The live entries show exactly the collections `c`: names, identities, mappings, documents. */
  predicate Shows(live: map<Name, Entry>, c: Collections) {
    live.Keys == c.Keys && forall n :: n in live ==> CollOf(live[n]) == c[n]
  }

  /** Every live entry has a directory of its own, and there are no other directories. */
  predicate DirsMatchLive(s: Store) {
    s.dirs.Keys == LiveUuids(s.live) &&
    forall n, n' :: n in s.live && n' in s.live && n != n' ==> s.live[n].uuid != s.live[n'].uuid
  }

  lemma InstallMatches(s: Store, n: Name, u: Uuid, m: Mapping, createdSeq: nat)
    requires DirsMatchLive(s) && n !in s.live && u !in s.dirs
    ensures DirsMatchLive(Install(s, n, u, m, createdSeq))
  {
    var t := Install(s, n, u, m, createdSeq);
    assert LiveUuids(t.live) == LiveUuids(s.live) + {u} by {
      assert t.live[n].uuid == u;
      forall n' | n' in s.live ensures s.live[n'].uuid in LiveUuids(t.live) {
        assert t.live[n'].uuid == s.live[n'].uuid;
      }
    }
    forall n' | n' in s.live ensures s.live[n'].uuid != u {
      assert s.live[n'].uuid in LiveUuids(s.live);
    }
  }

  lemma UninstallMatches(s: Store, n: Name)
    requires DirsMatchLive(s) && n in s.live
    ensures DirsMatchLive(Uninstall(s, n))
  {
    var t := Uninstall(s, n);
    assert LiveUuids(t.live) == LiveUuids(s.live) - {s.live[n].uuid} by {
      forall n' | n' in s.live && n' != n ensures s.live[n'].uuid in LiveUuids(t.live) {
        assert t.live[n'].uuid == s.live[n'].uuid;
      }
    }
  }

  lemma BufferMatches(s: Store, n: Name, docs: Docs)
    requires DirsMatchLive(s) && n in s.live
    ensures DirsMatchLive(Buffer(s, n, docs))
  {
    var t := Buffer(s, n, docs);
    assert LiveUuids(t.live) == LiveUuids(s.live) by {
      forall n' | n' in s.live ensures t.live[n'].uuid == s.live[n'].uuid { }
    }
  }

  lemma CommitMatches(s: Store, n: Name, mark: LogMark)
    requires DirsMatchLive(s) && n in s.live
    ensures DirsMatchLive(CommitOne(s, n, mark))
  {
    assert s.live[n].uuid in LiveUuids(s.live);
  }

  /** One applied command keeps entries and directories in step. */
  lemma ApplyMatches(s: Store, k: nat, cmd: Command)
    requires DirsMatchLive(s) && ApplyCommand(s, k, cmd).Ok?
    requires cmd.Create? && cmd.name !in s.live ==> cmd.uuid !in s.dirs
    ensures DirsMatchLive(ApplyCommand(s, k, cmd).value)
  {
    match cmd
    case Create(n, u, m) => if n !in s.live { InstallMatches(s, n, u, m, k); }
    case Drop(n) => if n in s.live { UninstallMatches(s, n); }
    case Index(n, id, src) => if n in s.live { BufferMatches(s, n, s.live[n].buffer[id := src]); }
    case Delete(n, id) => if n in s.live { BufferMatches(s, n, s.live[n].buffer - {id}); }
    case Blank =>
  }

  /** DDL persists the catalog at once, so `catalog.pb` always lists the live entries. */
  lemma ApplyPersists(p: Snapshot, s: Store, k: nat, cmd: Command, t: Store, p': Snapshot)
    requires Lists(p.entries, s.live) && ApplyCommand(s, k, cmd) == Ok(t) && PersistsTo(p, s, k, cmd, t, p')
    ensures Lists(p'.entries, t.live)
  {
  }
}
