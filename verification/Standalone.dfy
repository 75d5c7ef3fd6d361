/**
 The single-node catalog: every write goes to the write-ahead log before it takes effect, and
 `open` recovers the catalog from `catalog.pb`, the committed directories and the log's tail.
 */
module Standalone {
  import opened Outcome
  import opened Commands
  import opened Stores
  import opened Replays

  /**
   The write-ahead log on disk: the commands its files still hold, each under the number it carries,
   and the index the next frame will be read back under (nothing while there is no segment file).
   */
  datatype WalImage = WalImage(entries: map<nat, Command>, next: Option<nat>)

  const EMPTY_WAL := WalImage(map[], None)

  /** What survives a crash. */
  datatype Disk = Disk(dirs: map<Uuid, Dir>, snapshot: Snapshot, wal: WalImage)

  /** A running catalog; `store.dirs`, `snapshot` and `wal` are its disk. */
  datatype State = State(store: Store, snapshot: Snapshot, wal: WalImage, seqNo: nat)

  function DiskOf(st: State): Disk {
    Disk(st.store.dirs, st.snapshot, st.wal)
  }

  // ---------------------------------------------------------------- the log

  /** The frame of index `i` will be read back under `i`. */
  predicate Contiguous(w: WalImage, i: nat) {
    w.next.None? || w.next == Some(i)
  }

  /** Entry `i` appended, to a new file if the append rotates. */
  function AppendWal(w: WalImage, i: nat, cmd: Command, rotates: bool): WalImage {
    WalImage(w.entries[i := cmd], Some(if rotates || w.next.None? then i + 1 else w.next.value + 1))
  }

  /** What a crash inside that append may leave instead: at most an empty new file. */
  function TornWal(w: WalImage, i: nat, rotates: bool): WalImage {
    w.(next := if rotates || w.next.None? then Some(i) else w.next)
  }

  /**
   A new segment file begins at or past the end of the last one. Otherwise the two claim the same
   indexes, and what a reopen finds is not the log that was written.
   */
  predicate Clears(w: WalImage, i: nat, rotates: bool) {
    rotates && w.next.Some? ==> w.next.value <= i
  }

  /** What a reopen finds after the append; of a new file that does not clear only that it adds nothing else. */
  predicate Appends(w: WalImage, i: nat, cmd: Command, rotates: bool, w': WalImage) {
    if Clears(w, i, rotates) then w' == AppendWal(w, i, cmd, rotates)
    else forall k :: k in w'.entries ==> k in w.entries[i := cmd] && w'.entries[k] == w.entries[i := cmd][k]
  }

  /** What a reopen finds after an append that was cut short. */
  predicate Tears(w: WalImage, i: nat, rotates: bool, w': WalImage) {
    w'.entries == w.entries && (Clears(w, i, rotates) ==> w' == TornWal(w, i, rotates))
  }

  /** `trim(floor)`: whole segments go, and only entries at or below the floor with them. */
  predicate Trims(w: WalImage, w': WalImage, floor: nat) {
    && w'.next == w.next
    && (forall i :: i in w'.entries ==> i in w.entries && w'.entries[i] == w.entries[i])
    && (forall i :: i in w.entries && floor < i ==> i in w'.entries)
  }

  // ---------------------------------------------------------------- operations

  /** The effect of an accepted write on the store. */
  function Execute(s: Store, seqNo: nat, cmd: Command): Store {
    match cmd
    case Create(n, u, m) => if n in s.live then s else Install(s, n, u, m, seqNo)
    case Drop(n) => if n in s.live then Uninstall(s, n) else s
    case Index(n, id, src) => if n in s.live then Buffer(s, n, s.live[n].buffer[id := src]) else s
    case Delete(n, id) => if n in s.live then Buffer(s, n, s.live[n].buffer - {id}) else s
    case Blank => s
  }

  /** The write passes the checks its public method makes before logging it. */
  predicate Accepts(s: Store, cmd: Command) {
    match cmd
    case Create(n, _, _) => n !in s.live
    case Drop(n) => n in s.live
    case Index(n, _, src) => n in s.live && Buildable(s.live[n].mapping, src)
    case Delete(n, _) => n in s.live
    case Blank => false
  }

  /** The entry is logged and synced, but not executed. */
  function Logged(st: State, cmd: Command, rotates: bool): State {
    st.(wal := AppendWal(st.wal, st.seqNo + 1, cmd, rotates), seqNo := st.seqNo + 1)
  }

  function Written(st: State, cmd: Command, rotates: bool): State {
    var l := Logged(st, cmd, rotates);
    l.(store := Execute(st.store, l.seqNo, cmd))
  }

  /** The command did not fit a log record: its number is used up, and nothing else happened. */
  function Skipped(st: State): State {
    st.(seqNo := st.seqNo + 1)
  }

  // ---------------------------------------------------------------- recovery

  /** The collection is dropped by an entry above the snapshot's applied point. */
  predicate DroppedInTail(d: Disk, n: Name) {
    exists i :: i in d.wal.entries && d.snapshot.appliedSeq < i && d.wal.entries[i] == Drop(n)
  }

  /** The snapshot's entries that `open` loads. */
  predicate Kept(d: Disk, n: Name) {
    n in d.snapshot.entries && !DroppedInTail(d, n)
  }

  /** `s` is what `open` loads before replay; it fails if a kept entry has no directory. */
  ghost predicate Loads(d: Disk, s: Store) {
    && s.dirs == d.dirs
    && (forall n :: n in s.live <==> Kept(d, n))
    && (forall n :: n in s.live ==>
          d.snapshot.entries[n].uuid in d.dirs && s.live[n] == OpenEntry(d.snapshot.entries[n], d.dirs))
  }

  /** The largest sequence number the disk mentions: where the counter restarts. */
  ghost predicate IsTop(d: Disk, s: Store, top: nat) {
    && d.snapshot.appliedSeq <= top
    && (forall i :: i in d.wal.entries ==> i <= top)
    && (forall n :: n in s.live ==> s.live[n].createdSeq <= top)
    && (top == d.snapshot.appliedSeq || top in d.wal.entries || exists n :: n in s.live && s.live[n].createdSeq == top)
  }

  /** The log's entries as a list, a blank where an entry is missing. */
  function WalLog(w: WalImage, top: nat): (log: Log)
    ensures |log| == top
  {
    seq(top, i requires 0 <= i < top => if i + 1 in w.entries then w.entries[i + 1] else Blank)
  }

  /** Some entry above the applied point makes `open` replay, and then checkpoint. */
  predicate HasTail(d: Disk) {
    exists i :: i in d.wal.entries && d.snapshot.appliedSeq < i
  }

  /** `sweep_orphans` then `commit_all`: one directory per collection, holding its buffer at `mark`. */
  predicate CommitsAll(s: Store, t: Store, mark: LogMark) {
    && t.live == s.live && t.dirs.Keys == LiveUuids(s.live)
    && forall n :: n in s.live ==> s.live[n].uuid in t.dirs && t.dirs[s.live[n].uuid] == Dir(s.live[n].buffer, Some(mark))
  }

  /** The end of `open`, after replay produced `s`: sweep, and checkpoint if anything was replayed. */
  predicate Finishes(d: Disk, top: nat, s: Store, st: State) {
    && st.seqNo == top
    && if HasTail(d) then
         && CommitsAll(s, st.store, LogMark(0, 0, top))
         && st.snapshot.appliedSeq == top && Lists(st.snapshot.entries, s.live)
         && Trims(d.wal, st.wal, top)
       else
         Sweeps(s, st.store) && st.snapshot == d.snapshot && st.wal == d.wal
  }

  /** `Catalog::open`, as one step: load, replay the log's tail, finish. */
  ghost predicate Opens(d: Disk, s: Store, top: nat, st: State) {
    && Loads(d, s) && IsTop(d, s, top)
    && var result := Replay(s, WalLog(d.wal, top), d.snapshot.appliedSeq, top);
    && result.Ok? && Finishes(d, top, result.value, st)
  }

  // ---------------------------------------------------------------- invariant

  /** Creates are only logged for absent collections. */
  predicate CreatesFresh(log: Log) {
    forall k {:trigger CreateFresh(log, k)} :: 0 <= k < |log| ==> CreateFresh(log, k)
  }

  predicate CreateFresh(log: Log, k: nat)
    requires k < |log|
  {
    log[k].Create? ==> log[k].name !in Fold(log, k)
  }

  /** The committed documents are exactly those at the commit mark. */
  predicate DirExact(d: Dir, log: Log, n: Name, c: Coll) {
    var m := MarkOf(d).index;
    m <= |log| && (if m < c.created then d.docs == map[] else n in Fold(log, m) && d.docs == Fold(log, m)[n].docs)
  }

  /**
   The log holds every command above the persisted applied point, under its own number; a number
   without an entry was used up by a command that was never logged.
   */
  predicate WalOk(d: Disk, log: Log) {
    && (forall i :: d.snapshot.appliedSeq < i <= |log| ==> i in d.wal.entries || log[i - 1].Blank?)
    && (forall i :: i in d.wal.entries ==> 1 <= i <= |log| && d.wal.entries[i] == log[i - 1] && !log[i - 1].Blank?)
  }

  /** The highest number the disk mentions. */
  predicate IsHighest(d: Disk, top: nat) {
    && d.snapshot.appliedSeq <= top && (forall i :: i in d.wal.entries ==> i <= top)
    && (top == d.snapshot.appliedSeq || top in d.wal.entries)
  }

  // ---------------------------------------------------------------- disks that can be opened

  /** A listed collection that survives the tail is the one the log defines, and has its directory. */
  predicate ListedOk(d: Disk, log: Log, n: Name)
    requires n in d.snapshot.entries
  {
    n in Fold(log, |log|) &&
    var c := Fold(log, |log|)[n];
    d.snapshot.entries[n] == SnapshotEntry(c.uuid, c.created, c.mapping) && c.created <= d.snapshot.appliedSeq && c.uuid in d.dirs
  }

  /** What `open` needs of a disk to succeed; the applied point may be ahead of what the directories hold. */
  predicate SoundDisk(d: Disk, log: Log) {
    && WellFormed(log) && CreatesFresh(log) && d.snapshot.appliedSeq <= |log| && WalOk(d, log)
    && (forall n :: n in d.snapshot.entries && NoDrop(log, n, d.snapshot.appliedSeq, |log|) ==> ListedOk(d, log, n))
    && (forall n :: n in Fold(log, |log|) && Fold(log, |log|)[n].created <= d.snapshot.appliedSeq ==> n in d.snapshot.entries)
    && (forall n :: n in Fold(log, |log|) && Fold(log, |log|)[n].uuid in d.dirs ==>
          DirExact(d.dirs[Fold(log, |log|)[n].uuid], log, n, Fold(log, |log|)[n]))
  }

  /** The position the directory of an instance stands for. */
  function Since(d: Disk, c: Coll): nat {
    Max(c.created, if c.uuid in d.dirs then MarkOf(d.dirs[c.uuid]).index else 0)
  }

  /**
   The applied point has overtaken a document: the directory holds its value at an earlier position,
   it was changed after that, and no later command will bring it up again.
   */
  predicate Overtaken(d: Disk, log: Log, n: Name, id: Id)
    requires d.snapshot.appliedSeq <= |log|
  {
    n in Fold(log, |log|) &&
    var c, a := Fold(log, |log|)[n], d.snapshot.appliedSeq;
    c.created <= a && Since(d, c) < a && Untouched(log, n, id, a, |log|) && DocAt(log, Since(d, c), n, id) != DocAt(log, |log|, n, id)
  }

  ghost predicate NoneOvertaken(d: Disk, log: Log)
    requires d.snapshot.appliedSeq <= |log|
  {
    forall n, id :: !Overtaken(d, log, n, id)
  }

  // ---------------------------------------------------------------- disks a crash can leave

  /** What every disk of a running catalog satisfies, for the log of all durable commands. */
  ghost predicate DiskOk(d: Disk, log: Log) {
    SoundDisk(d, log) && NoneOvertaken(d, log)
  }

  /** A disk as a crash leaves it: the last number it mentions is that of the last command. */
  ghost predicate DownOk(d: Disk, log: Log) {
    DiskOk(d, log) && IsHighest(d, |log|)
  }

  /**
   A disk as a crash may leave it when the last numbers were used up: the disk does not mention them,
   but directories may have been committed at one of them.
   */
  ghost predicate FallenOk(d: Disk, log: Log) {
    IsHighest(d, |log|) && exists full :: log <= full && DiskOk(d, full)
  }

  /** Such a disk after an interrupted recovery: the applied point may have overtaken documents. */
  ghost predicate Restartable(d: Disk, log: Log) {
    IsHighest(d, |log|) && exists full :: log <= full && SoundDisk(d, full)
  }

  /** No live collection is committed at a number above the log. */
  predicate MarksWithin(d: Disk, log: Log) {
    forall n :: n in Fold(log, |log|) && Fold(log, |log|)[n].uuid in d.dirs ==> MarkOf(d.dirs[Fold(log, |log|)[n].uuid]).index <= |log|
  }

  /** No such commit, or a tail to replay, after which `open` commits every collection at the top. */
  predicate Safe(d: Disk, log: Log) {
    MarksWithin(d, log) || HasTail(d)
  }

  /** Neither has the applied point overtaken a document. */
  ghost predicate Harmless(d: Disk, log: Log) {
    d.snapshot.appliedSeq <= |log| && NoneOvertaken(d, log) && Safe(d, log)
  }

  /** A running catalog shows exactly what its durable commands define. */
  ghost predicate StateOk(st: State, log: Log) {
    && DiskOk(DiskOf(st), log)
    && st.seqNo == |log|
    && Exact(st.store, log, |log|)
    && Owned(st.store, log)
    && DirsMatchLive(st.store)
  }
}
