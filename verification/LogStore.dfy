/**
 The Raft log store: entries encoded into the segmented log, and a small metadata file that
 carries the vote, the committed index and the purge floor.
 */
module RaftLogs {
  import opened Outcome
  import opened Frames
  import opened Segments
  import opened LogIndex
  import opened LogDisk
  import opened SegmentedLogs
  import opened LogRecovery
  import opened LogGaps

  datatype LogId = LogId(term: nat, node: nat, index: nat)

  datatype RaftEntry = RaftEntry(logId: LogId, payload: int)

  /** `raft-meta.pb`. */
  datatype Meta = Meta(vote: Option<int>, committed: Option<LogId>, lastPurged: Option<LogId>)

  function FloorOf(purged: Option<LogId>): int {
    if purged.Some? then purged.value.index else -1
  }

  /** Every record is an entry that carries its own index. */
  ghost predicate Encoded(c: Codec<RaftEntry>, contents: map<nat, Bytes>) {
    forall k :: k in contents ==> IsEntry(c, k, contents[k])
  }

  predicate IsEntry(c: Codec<RaftEntry>, k: nat, p: Bytes) {
    var e := c.decode(p);
    e.Some? && e.value.logId.index == k
  }

  // ---------------------------------------------------------------- ranges

  const MAX_INDEX: nat := 0xFFFF_FFFF_FFFF_FFFF

  /** Indexes are 64-bit. */
  type Index = n: nat | n <= MAX_INDEX

  datatype Bound = Included(n: Index) | Excluded(n: Index) | Unbounded

  function SaturatingSucc(n: nat): nat {
    if n < MAX_INDEX then n + 1 else MAX_INDEX
  }

  predicate AtOrAbove(lo: Bound, k: nat) {
    match lo
    case Included(n) => n <= k
    case Excluded(n) => n < k
    case Unbounded => true
  }

  predicate AtOrBelow(hi: Bound, last: Option<nat>, k: nat) {
    match hi
    case Included(n) => k <= n
    case Excluded(n) => k < n
    case Unbounded => last.Some? && k <= last.value
  }

  /** A half-open range that contains exactly the indexes within the bounds, short of the very last one. */
  function ConcreteRange(lo: Bound, hi: Bound, last: Option<nat>): (r: (nat, nat))
    ensures forall k: nat :: r.0 <= k < r.1 <==> k < MAX_INDEX && AtOrAbove(lo, k) && AtOrBelow(hi, last, k)
  {
    var from := match lo case Included(n) => n case Excluded(n) => SaturatingSucc(n) case Unbounded => 0;
    var upto := match hi
      case Included(n) => SaturatingSucc(n)
      case Excluded(n) => n
      case Unbounded => if last.Some? then SaturatingSucc(last.value) else 0;
    (from, upto)
  }

  // ---------------------------------------------------------------- appends

  /** The entries carry consecutive indexes from `start` on. */
  predicate Consecutive(es: seq<RaftEntry>, start: nat) {
    forall i :: 0 <= i < |es| ==> es[i].logId.index == start + i
  }

  /** The map with the entries written under their indexes. */
  function Appended(c: Codec<RaftEntry>, contents: map<nat, Bytes>, es: seq<RaftEntry>): map<nat, Bytes> {
    if es == [] then contents
    else
      var n := |es| - 1;
      Appended(c, contents, es[..n])[es[n].logId.index := c.encode(es[n])]
  }

  lemma AppendedSnoc(c: Codec<RaftEntry>, contents: map<nat, Bytes>, es: seq<RaftEntry>, i: nat)
    requires i < |es|
    ensures Appended(c, contents, es[..i + 1]) == Appended(c, contents, es[..i])[es[i].logId.index := c.encode(es[i])]
  {
    assert es[..i + 1][..i] == es[..i];
  }

  function EncodedAll(c: Codec<RaftEntry>, es: seq<RaftEntry>): (ps: seq<Bytes>)
    ensures |ps| == |es|
  {
    seq(|es|, i requires 0 <= i < |es| => c.encode(es[i]))
  }

  lemma EncodedSnoc(c: Codec<RaftEntry>, es: seq<RaftEntry>, i: nat)
    requires i < |es|
    ensures EncodedAll(c, es[..i + 1]) == EncodedAll(c, es[..i]) + [c.encode(es[i])]
  {
  }

  lemma EncodedStep(c: Codec<RaftEntry>, contents: map<nat, Bytes>, e: RaftEntry)
    requires Invertible(c) && Encoded(c, contents)
    ensures Encoded(c, contents[e.logId.index := c.encode(e)])
  {
    assert c.decode(c.encode(e)) == Some(e);
  }

  // ---------------------------------------------------------------- reopening

  /** The records of `segs` above a floor are entries. */
  ghost predicate EntriesAbove(c: Codec<RaftEntry>, segs: seq<Segment>, floor: int) {
    forall i, k {:trigger Covers(segs[i], k)} :: 0 <= i < |segs| && Covers(segs[i], k) && floor < k ==> IsEntry(c, k, PayloadIn(segs[i], k))
  }

  /** `contents` is what an index over the segments read back holds above the floor. */
  ghost predicate ReadAbove(crc: Checksum, was: seq<Segment>, disk: map<nat, Bytes>, floor: int, contents: map<nat, Bytes>) {
    && Ordered(ReadBack(crc, was, disk))
    && exists records1, contents1 :: IndexOk(crc, ReadBack(crc, was, disk), -1, records1, contents1) && contents == Above(contents1, floor)
  }

  lemma ReadAboveIs(crc: Checksum, was: seq<Segment>, disk: map<nat, Bytes>, floor: int, records1: map<nat, RecordLoc>, contents1: map<nat, Bytes>)
    requires Ordered(ReadBack(crc, was, disk)) && IndexOk(crc, ReadBack(crc, was, disk), -1, records1, contents1)
    ensures ReadAbove(crc, was, disk, floor, Above(contents1, floor))
    ensures floor == -1 ==> Above(contents1, floor) == contents1
  {
    hide Ordered, IndexOk, ReadBack;
    if floor == -1 {
      assert Above(contents1, floor).Keys == contents1.Keys;
    }
  }

  /** What is read back above the floor are entries. */
  lemma ReadEntries(c: Codec<RaftEntry>, crc: Checksum, was: seq<Segment>, disk: map<nat, Bytes>, floor: int,
                    records1: map<nat, RecordLoc>, contents1: map<nat, Bytes>)
    requires Recoverable(crc, was, disk) && EntriesAbove(c, was, floor)
    requires Ordered(ReadBack(crc, was, disk)) && IndexOk(crc, ReadBack(crc, was, disk), -1, records1, contents1)
    ensures Encoded(c, Above(contents1, floor))
  {
    hide Ordered, IndexOk, Recoverable, ReadBack, Above, PayloadIn, IsEntry;
    var above, read := Above(contents1, floor), ReadBack(crc, was, disk);
    forall k | k in above ensures IsEntry(c, k, above[k]) {
      var i := IndexHit(crc, read, -1, records1, contents1, k);
      ReadBackWasThere(crc, was, disk, i, k);
    }
  }

  // ---------------------------------------------------------------- what is on disk along the way

  /** The metadata file and the log directory at some moment. */
  datatype OnDisk = OnDisk(meta: Meta, dir: Directory)

  /**
   What was on disk at some moment of an operation that found `file` and `before` there, made the
   metadata writes `writes` and after them the deletions `after`.
   */
  ghost predicate Passes(file: Meta, before: Directory, writes: seq<OnDisk>, after: seq<Directory>, p: OnDisk) {
    || p == OnDisk(file, before) || p in writes
    || exists e :: 0 <= e < |after| && p == OnDisk(if writes == [] then file else writes[|writes| - 1].meta, after[e])
  }

  /** A purge: the floor is written while the directory is whole, and then the files go one by one. */
  ghost predicate Purging(file: Meta, before: Directory, starts: seq<nat>, logId: LogId, writes: seq<OnDisk>, after: seq<Directory>) {
    writes == [OnDisk(file.(lastPurged := Some(logId)), before)] && OneByOne(before, starts, logId.index, after)
  }

  /** At every moment of a purge no file is deleted yet, or the metadata file carries the floor. */
  lemma FloorFirst(file: Meta, before: Directory, starts: seq<nat>, logId: LogId, writes: seq<OnDisk>, after: seq<Directory>)
    requires Purging(file, before, starts, logId, writes, after)
    ensures forall p :: Passes(file, before, writes, after, p) ==> p.dir == before || p.meta.lastPurged == Some(logId)
  {
    hide OneByOne;
  }

  // ---------------------------------------------------------------- the store

  class LogStore {
    const codec: Codec<RaftEntry>
    const log: SegmentedLog
    var meta: Meta
    /** The contents of the metadata file. */
    var file: Meta
    /** What was on disk after each write of the metadata file. */
    ghost var writes: seq<OnDisk>

    ghost predicate Valid()
      reads this, log
    {
      && Invertible(codec) && log.Valid() && Encoded(codec, log.contents)
      && meta == file && log.floor == FloorOf(meta.lastPurged)
    }

    /**
     Opens the log and applies the persisted purge floor again. For a directory that held the
     segments `was`, with at most its last file cut short, the store holds exactly the records
     read back above the floor.
     */
    constructor (codec: Codec<RaftEntry>, crc: Checksum, maxBytes: nat, disk: map<nat, Bytes>, file: Meta, ghost was: seq<Segment>)
      requires Invertible(codec)
      ensures this.codec == codec && this.file == file && meta == file && fresh(log) && log.crc == crc && log.maxBytes == maxBytes
      ensures Recoverable(crc, was, disk) ==> ReadAbove(crc, was, disk, FloorOf(file.lastPurged), log.contents)
      ensures Recoverable(crc, was, disk) && EntriesAbove(codec, was, FloorOf(file.lastPurged)) ==>
                Encoded(codec, log.contents) && (GapFree(was) ==> Valid())
    {
      hide Frames.Encode, Ordered, GapFree, Stored, Synced, IndexOk, StartsOf, ActiveOf, Recoverable, ReadBack, Above, ReadAbove, PurgePoint, EntriesAbove;
      var raw := new SegmentedLog(crc, maxBytes, disk, was);
      if Recoverable(crc, was, disk) {
        ReadAboveIs(crc, was, disk, FloorOf(file.lastPurged), raw.records, raw.contents);
      }
      if Recoverable(crc, was, disk) && EntriesAbove(codec, was, FloorOf(file.lastPurged)) {
        ReadEntries(codec, crc, was, disk, FloorOf(file.lastPurged), raw.records, raw.contents);
      }
      if file.lastPurged.Some? {
        raw.PurgeThrough(file.lastPurged.value.index);
      }
      this.codec, log, meta, this.file, writes := codec, raw, file, file, [];
    }

    method PersistMeta()
      modifies `file, `writes
      ensures file == meta && writes == old(writes) + [OnDisk(file, Directory(log.files, log.durable))]
    {
      file := meta;
      writes := writes + [OnDisk(file, Directory(log.files, log.durable))];
    }

    method SaveVote(vote: int)
      requires Valid()
      modifies `meta, `file, `writes
      ensures Valid() && file == old(file).(vote := Some(vote))
    {
      meta := meta.(vote := Some(vote));
      PersistMeta();
    }

    method SaveCommitted(committed: Option<LogId>)
      requires Valid()
      modifies `meta, `file, `writes
      ensures Valid() && file == old(file).(committed := committed)
    {
      meta := meta.(committed := committed);
      PersistMeta();
    }

    /** Writes the entries, stopping at one that is too long for a frame; `count` were written. */
    method WriteAll(es: seq<RaftEntry>, ghost start: nat) returns (count: nat)
      requires Invertible(codec) && log.Usable() && Consecutive(es, start) && (es != [] ==> log.IsNext(start))
      modifies log
      ensures count <= |es| && log.Usable() && log.floor == old(log.floor)
      ensures forall j :: 0 <= j < count ==> Fits(codec.encode(es[j]))
      ensures count < |es| ==> !Fits(codec.encode(es[count]))
      ensures old(Extends(log.contents, es, start, 0)) ==> Extends(old(log.contents), es, start, count)
      ensures old(InLine(es, start, 0)) ==> InLine(es, start, count)
      ensures old(Spreads(log.segs, log.active, es, start, 0)) ==> Spreads(old(log.segs), old(log.active), es, start, count)
    {
      hide SegmentedLog.IsNext, Extends, InLine, Invertible, Spreads;
      ghost var contents0, segs0, active0 := log.contents, log.segs, log.active;
      count := 0;
      while count < |es|
        invariant count <= |es| && log.Usable() && log.floor == old(log.floor) && (es != [] ==> log.IsNext(start + count))
        invariant old(Extends(log.contents, es, start, 0)) ==> Extends(contents0, es, start, count)
        invariant old(InLine(es, start, 0)) ==> InLine(es, start, count)
        invariant old(Spreads(log.segs, log.active, es, start, 0)) ==> Spreads(segs0, active0, es, start, count)
        invariant forall j :: 0 <= j < count ==> Fits(codec.encode(es[j]))
      {
        var fits := AppendOne(es, start, contents0, segs0, active0, count);
        if !fits {
          return;
        }
        count := count + 1;
      }
    }

    /**
     Appends the entries and syncs once, at the end; an entry too long for a frame stops it. If the
     first record is placed where a reopen looks for it, the map is extended by exactly these
     entries; if it continues the last segment file, no index is skipped either. Past a gap the files
     hold the entries that fit the active file counted from its end, and the others under their own
     index.
     */
    method Append(es: seq<RaftEntry>, ghost start: nat) returns (ok: bool)
      requires Valid() && Consecutive(es, start) && (es != [] ==> log.IsNext(start))
      modifies log
      ensures ok <==> forall i :: 0 <= i < |es| ==> Fits(codec.encode(es[i]))
      ensures es == [] || old(log.Aligned(start)) ==> Valid()
      ensures es == [] || old(log.Placed(start)) ==> log.Consistent() && Encoded(codec, log.contents)
      ensures ok && old(log.segs != [] ==> Last(log.segs).End() <= start) ==>
                && log.Grounded() && AllDurable(log.files, log.durable)
                && var ps := EncodedAll(codec, es); Spread(old(log.segs), start, ps, Filling(old(log.active), log.maxBytes, ps), log.segs)
      ensures ok && (es == [] || old(log.Placed(start))) ==>
                && log.contents == Appended(codec, old(log.contents), es)
                && AllDurable(log.files, log.durable)
    {
      hide SegmentedLog.Consistent, SegmentedLog.Grounded, SegmentedLog.IsNext, SegmentedLog.Placed, AllDurable, Encoded, Invertible, Extends, InLine, Spread, Filling;
      log.ValidTracks();
      ghost var contents0, placed, aligned := log.contents, es == [] || log.Placed(start), es == [] || log.Aligned(start);
      if placed {
        ExtendsNone(es, start);
      }
      if aligned {
        InLineNone(es, start);
      }
      ghost var beyond := log.segs != [] ==> Last(log.segs).End() <= start;
      if beyond {
        SpreadsNone(es, start);
      }
      var count := WriteAll(es, start);
      if placed {
        ExtendsAll(contents0, es, start, count);
      }
      if aligned {
        InLineAll(es, start, count);
      }
      ok := count == |es|;
      if ok {
        assert es[..count] == es;
        log.Sync();
      }
    }

    lemma SpreadsNone(es: seq<RaftEntry>, start: nat)
      requires Valid() && (log.segs != [] ==> Last(log.segs).End() <= start)
      ensures Spreads(log.segs, log.active, es, start, 0)
    {
      log.ConsistentGrounded();
      log.ConsistentReadable();
      log.ValidTracks();
      hide SegmentedLog.Consistent, SegmentedLog.Readable, SegmentedLog.Tracks, DiskOk, Listed, Filed, Encoded, Invertible, GapFree;
      assert EncodedAll(codec, es[..0]) == [];
      SpreadNone(log.segs, start);
    }

    /** No index is skipped, and the next entry continues the last segment. */
    ghost predicate InLine(es: seq<RaftEntry>, start: nat, i: nat)
      reads log
    {
      log.Valid() && (es != [] ==> log.Aligned(start + i))
    }

    lemma InLineNone(es: seq<RaftEntry>, start: nat)
      requires Valid() && (es == [] || log.Aligned(start))
      ensures InLine(es, start, 0) && (es == [] || log.Placed(start))
    {
      hide SegmentedLog.Valid, Encoded, Invertible;
    }

    lemma InLineAll(es: seq<RaftEntry>, start: nat, i: nat)
      requires InLine(es, start, i)
      ensures log.Valid()
    {
    }

    /** The first `i` entries have been added to the map, and the next one will be placed. */
    ghost predicate Extends(contents0: map<nat, Bytes>, es: seq<RaftEntry>, start: nat, i: nat)
      reads this, log
    {
      && i <= |es| && log.Consistent() && Encoded(codec, log.contents) && log.contents == Appended(codec, contents0, es[..i])
      && (es != [] ==> log.Placed(start + i))
    }

    lemma ExtendsNone(es: seq<RaftEntry>, start: nat)
      requires Valid() && (es == [] || log.Placed(start))
      ensures Extends(log.contents, es, start, 0)
    {
      hide SegmentedLog.Consistent, Encoded, Invertible;
    }

    lemma ExtendsAll(contents0: map<nat, Bytes>, es: seq<RaftEntry>, start: nat, i: nat)
      requires Extends(contents0, es, start, i)
      ensures log.Consistent() && Encoded(codec, log.contents) && i <= |es| && log.contents == Appended(codec, contents0, es[..i])
    {
    }

    /** In the files, the first `i` entries have gone where the room in the active file sends them. */
    ghost predicate Spreads(segs0: seq<Segment>, active0: Option<Active>, es: seq<RaftEntry>, start: nat, i: nat)
      reads this, log
    {
      && i <= |es| && log.Grounded() && (segs0 != [] ==> Last(segs0).End() <= start) && ActiveAt(active0, segs0)
      && var ps := EncodedAll(codec, es[..i]);
      && Spread(segs0, start, ps, Filling(active0, log.maxBytes, ps), log.segs)
      && (active0.Some? && Filling(active0, log.maxBytes, ps) == i ==>
            log.Tracks() && log.Readable() && log.active.Some? && log.active.value.bytes == active0.value.bytes + FrameBytes(ps))
    }

    method AppendOne(es: seq<RaftEntry>, ghost start: nat, ghost contents0: map<nat, Bytes>, ghost segs0: seq<Segment>, ghost active0: Option<Active>, i: nat)
      returns (fits: bool)
      requires i < |es| && Consecutive(es, start) && Invertible(codec) && log.Usable() && log.IsNext(start + i)
      modifies log
      ensures log.Usable() && log.floor == old(log.floor) && fits == Fits(codec.encode(es[i]))
      ensures fits ==> log.IsNext(start + i + 1)
      ensures old(Extends(contents0, es, start, i)) ==> Extends(contents0, es, start, if fits then i + 1 else i)
      ensures old(InLine(es, start, i)) ==> InLine(es, start, if fits then i + 1 else i)
      ensures old(Spreads(segs0, active0, es, start, i)) ==> Spreads(segs0, active0, es, start, if fits then i + 1 else i)
    {
      hide SegmentedLog.Consistent, SegmentedLog.Grounded, GapFree, SegmentedLog.IsNext, AllDurable, Invertible, Encoded, Frames.Frame, AppendedTo, Points,
           Spread, Filling, FrameBytes;
      ghost var contents := log.contents;
      ghost var good := Extends(contents0, es, start, i);
      ghost var spreads := Spreads(segs0, active0, es, start, i);
      if spreads {
        BeginsNext(segs0, active0, es, start, i);
      }
      fits := log.Append(es[i].logId.index, codec.encode(es[i]));
      if fits && spreads {
        EncodedSnoc(codec, es, i);
        SpreadStep(segs0, start, active0, log.maxBytes, EncodedAll(codec, es[..i]), old(log.segs), old(log.NeedsRotation()), codec.encode(es[i]));
        FillingSnoc(active0, log.maxBytes, EncodedAll(codec, es[..i]), codec.encode(es[i]));
      }
      if fits && good {
        AppendedSnoc(codec, contents0, es, i);
        EncodedStep(codec, contents, es[i]);
      }
    }

    /** A rotation before the next entry begins a file past all that is there. */
    lemma BeginsNext(segs0: seq<Segment>, active0: Option<Active>, es: seq<RaftEntry>, start: nat, i: nat)
      requires i < |es| && Spreads(segs0, active0, es, start, i) && log.IsNext(start + i)
      ensures Begins(log.segs, log.records, start + i)
    {
      hide SegmentedLog.Grounded, Filling, FrameBytes;
    }

    /** Drops the entries from `logId` on. */
    method Truncate(logId: LogId)
      requires Valid()
      modifies log
      ensures log.contents == Below(old(log.contents), logId.index)
      ensures FloorOf(file.lastPurged) < logId.index ==> Valid()
      ensures logId.index <= FloorOf(file.lastPurged) ==> OnlyBelow(old(log.files), logId.index, log.files)
    {
      hide SegmentedLog.Consistent, GapFree, Below, OnlyBelow;
      log.TruncateFrom(logId.index);
    }

    /**
     Persists the new floor, then drops the entries up to it: at every moment in between no file is
     deleted yet, or the metadata file already carries the floor.
     */
    method Purge(logId: LogId)
      requires Valid()
      modifies `meta, `file, `writes, log
      ensures old(writes) <= writes && old(log.trail) <= log.trail
      ensures var before, ws, after := Directory(old(log.files), old(log.durable)), writes[|old(writes)|..], log.trail[|old(log.trail)|..];
              && Purging(old(file), before, old(log.starts), logId, ws, after)
              && forall p :: Passes(old(file), before, ws, after, p) ==> p.dir == before || p.meta.lastPurged == Some(logId)
      ensures file == old(file).(lastPurged := Some(logId))
      ensures FloorOf(old(file).lastPurged) <= logId.index ==> Valid() && log.contents == Above(old(log.contents), logId.index)
    {
      log.ValidShape();
      hide SegmentedLog.Valid, Above, Shaped, PurgePoint, OneByOne, Passes;
      meta := meta.(lastPurged := Some(logId));
      PersistMeta();
      log.PurgeThrough(logId.index);
      FloorFirst(old(file), Directory(old(log.files), old(log.durable)), old(log.starts), logId, writes[|old(writes)|..], log.trail[|old(log.trail)|..]);
    }

    /**
     The last purged id, and the id of the last entry, which is never below it. An entry at the very
     last index cannot be read: its range saturates.
     */
    method GetLogState() returns (lastPurged: Option<LogId>, last: Result<Option<LogId>, nat>)
      requires Valid()
      ensures lastPurged == file.lastPurged
      ensures last.Fail? <==> exists k :: k in log.contents && MAX_INDEX <= k
      ensures last.Ok? && log.contents.Keys == {} ==> last.value == lastPurged
      ensures last.Ok? && log.contents.Keys != {} ==> last.value.Some? && IsLast(codec, log.contents, last.value.value)
      ensures last.Ok? && lastPurged.Some? ==> last.value.Some? && lastPurged.value.index <= last.value.value.index
    {
      lastPurged := meta.lastPurged;
      hide SegmentedLog.Consistent, GapFree, Encoded, Invertible, SegmentedLogs.Lists, IsLast;
      log.ValidKeys();
      log.ConsistentReadable();
      var index := log.LastIndex();
      if index.None? {
        last := Ok(lastPurged);
      } else {
        var found := log.ReadRange(index.value, SaturatingSucc(index.value));
        LastListed(codec, found, log.contents, index.value);
        last := if found == [] then Fail(index.value) else Ok(Some(codec.decode(found[0].1).value.logId));
      }
    }

    /** The entries within the bounds, in index order, short of one at the very last index. */
    method TryGetLogEntries(lo: Bound, hi: Bound) returns (out: seq<RaftEntry>)
      requires Valid()
      ensures ListsEntries(codec, out, Below(log.contents, MAX_INDEX), lo, hi)
    {
      hide SegmentedLog.Consistent, GapFree, Encoded, Invertible, SegmentedLogs.Lists, ListsEntries;
      log.ValidKeys();
      log.ConsistentReadable();
      var last := log.LastIndex();
      var range := ConcreteRange(lo, hi, last);
      var found := log.ReadRange(range.0, range.1);
      out := DecodeAll(codec, found, log.contents, range.0, range.1);
      DecodedLists(codec, found, out, log.contents, lo, hi, last);
    }
  }

  /** `id` is that of the entry with the highest index. */
  ghost predicate IsLast(c: Codec<RaftEntry>, contents: map<nat, Bytes>, id: LogId) {
    && id.index in contents && (forall k :: k in contents ==> k <= id.index)
    && c.decode(contents[id.index]).Some? && c.decode(contents[id.index]).value.logId == id
  }

  /** `out` is exactly the entries within the bounds, by increasing index. */
  ghost predicate ListsEntries(c: Codec<RaftEntry>, out: seq<RaftEntry>, contents: map<nat, Bytes>, lo: Bound, hi: Bound) {
    && (forall i, j :: 0 <= i < j < |out| ==> out[i].logId.index < out[j].logId.index)
    && (forall i :: 0 <= i < |out| ==>
          var k := out[i].logId.index;
          AtOrAbove(lo, k) && Within(hi, k) && k in contents && c.decode(contents[k]) == Some(out[i]))
    && (forall k :: k in contents && AtOrAbove(lo, k) && Within(hi, k) ==> c.decode(contents[k]).Some? && c.decode(contents[k]).value in out)
  }

  predicate Within(hi: Bound, k: nat) {
    hi.Unbounded? || AtOrBelow(hi, None, k)
  }

  /** The decoded entries, one per record, each under its record's index. */
  ghost predicate Decoded(c: Codec<RaftEntry>, found: seq<(nat, Bytes)>, out: seq<RaftEntry>) {
    |out| == |found| && forall j :: 0 <= j < |out| ==> c.decode(found[j].1) == Some(out[j]) && out[j].logId.index == found[j].0
  }

  method DecodeAll(c: Codec<RaftEntry>, found: seq<(nat, Bytes)>, ghost contents: map<nat, Bytes>, ghost lo: nat, ghost hi: nat) returns (out: seq<RaftEntry>)
    requires Encoded(c, contents) && SegmentedLogs.Lists(found, contents, lo, hi)
    ensures Decoded(c, found, out)
  {
    out := [];
    for i := 0 to |found|
      invariant Decoded(c, found[..i], out)
    {
      assert IsEntry(c, found[i].0, found[i].1);
      out := out + [c.decode(found[i].1).value];
    }
    assert found[..|found|] == found;
  }

  lemma DecodedLists(c: Codec<RaftEntry>, found: seq<(nat, Bytes)>, out: seq<RaftEntry>, contents: map<nat, Bytes>, lo: Bound, hi: Bound, last: Option<nat>)
    requires var r := ConcreteRange(lo, hi, last); SegmentedLogs.Lists(found, contents, r.0, r.1)
    requires Decoded(c, found, out) && forall k :: k in contents ==> last.Some? && k <= last.value
    ensures ListsEntries(c, out, Below(contents, MAX_INDEX), lo, hi)
  {
    hide ConcreteRange, AtOrAbove, Within, Below;
    var r, below := ConcreteRange(lo, hi, last), Below(contents, MAX_INDEX);
    forall k | k in below && AtOrAbove(lo, k) && Within(hi, k) ensures c.decode(below[k]).Some? && c.decode(below[k]).value in out {
      InRange(contents, lo, hi, last, k);
      FoundIsOut(c, found, out, contents, r.0, r.1, k);
    }
    forall i | 0 <= i < |out|
      ensures var k := out[i].logId.index; AtOrAbove(lo, k) && Within(hi, k) && k in below && c.decode(below[k]) == Some(out[i])
    {
      InRange(contents, lo, hi, last, found[i].0);
    }
  }

  lemma InRange(contents: map<nat, Bytes>, lo: Bound, hi: Bound, last: Option<nat>, k: nat)
    requires k in contents && last.Some? && k <= last.value
    ensures var r := ConcreteRange(lo, hi, last); r.0 <= k < r.1 <==> k in Below(contents, MAX_INDEX) && AtOrAbove(lo, k) && Within(hi, k)
  {
  }

  lemma FoundIsOut(c: Codec<RaftEntry>, found: seq<(nat, Bytes)>, out: seq<RaftEntry>, contents: map<nat, Bytes>, lo: nat, hi: nat, k: nat)
    requires SegmentedLogs.Lists(found, contents, lo, hi) && Decoded(c, found, out) && k in contents && lo <= k < hi
    ensures c.decode(contents[k]).Some? && c.decode(contents[k]).value in out
  {
    assert (k, contents[k]) in found;
    var j :| 0 <= j < |found| && found[j] == (k, contents[k]);
    assert out[j] in out;
  }

  lemma LastListed(c: Codec<RaftEntry>, out: seq<(nat, Bytes)>, m: map<nat, Bytes>, k: nat)
    requires SegmentedLogs.Lists(out, m, k, SaturatingSucc(k)) && k in m && Encoded(c, m) && forall j :: j in m ==> j <= k
    ensures out == [] <==> MAX_INDEX <= k
    ensures out != [] ==> c.decode(out[0].1).Some? && c.decode(out[0].1).value.logId.index == k
    ensures out != [] ==> IsLast(c, m, c.decode(out[0].1).value.logId)
  {
    if k < MAX_INDEX {
      assert (k, m[k]) in out && IsEntry(c, k, m[k]);
    }
    assert out != [] ==> out[0].0 == k;
  }

  // ---------------------------------------------------------------- restarts

  /** The records of a consistent store's segments above its floor are entries. */
  lemma StoredEntries(c: Codec<RaftEntry>, crc: Checksum, segs: seq<Segment>, floor: int, records: map<nat, RecordLoc>, contents: map<nat, Bytes>)
    requires Ordered(segs) && IndexOk(crc, segs, floor, records, contents) && Encoded(c, contents)
    ensures EntriesAbove(c, segs, floor)
  {
    hide IndexOk, Ordered, PayloadIn, IsEntry;
    forall i, k | 0 <= i < |segs| && Covers(segs[i], k) && floor < k ensures IsEntry(c, k, PayloadIn(segs[i], k)) {
      IndexHas(crc, segs, floor, records, contents, i, k);
    }
  }

  /** What the index holds is what is read of the segments above the floor. */
  lemma ReadIsIndexed(crc: Checksum, segs: seq<Segment>, floor: int, records: map<nat, RecordLoc>, contents: map<nat, Bytes>, k: nat)
    requires Ordered(segs) && IndexOk(crc, segs, floor, records, contents)
    ensures floor < k ==> Get(Overlay(segs), k) == Get(contents, k)
    ensures k <= floor ==> k !in contents
  {
    hide IndexOk, Ordered, PayloadIn;
    if k in contents {
      var i := IndexHit(crc, segs, floor, records, contents, k);
      OnlyCover(segs, i, k);
      OverlayAt(segs, i, k);
    } else if floor < k {
      OverlayCovered(segs, k);
      if i :| 0 <= i < |segs| && Covers(segs[i], k) {
        IndexHas(crc, segs, floor, records, contents, i, k);
      }
    }
  }

  lemma OnlyCover(segs: seq<Segment>, i: nat, k: nat)
    requires Ordered(segs) && i < |segs| && Covers(segs[i], k)
    ensures forall j :: i < j < |segs| ==> !Covers(segs[j], k)
  {
  }

  /**
   What a reopen finds above the floor: the first `r` of the payloads counted from the end of the last
   file, the others under their own index, and elsewhere what was there.
   */
  ghost predicate Found(segs0: seq<Segment>, contents0: map<nat, Bytes>, floor: int, start: nat, ps: seq<Bytes>, r: nat, contents: map<nat, Bytes>)
    requires r <= |ps|
  {
    forall k: nat {:trigger k in contents} ::
      Get(contents, k) ==
      if start + r <= k < start + |ps| then Some(ps[k - start])
      else if segs0 != [] && Last(segs0).End() <= k < Last(segs0).End() + r && floor < k then Some(ps[k - Last(segs0).End()])
      else Get(contents0, k)
  }

  lemma FoundIs(crc: Checksum, segs0: seq<Segment>, floor: int, records0: map<nat, RecordLoc>, contents0: map<nat, Bytes>,
                start: nat, ps: seq<Bytes>, r: nat, segs: seq<Segment>, contents: map<nat, Bytes>)
    requires Ordered(segs0) && IndexOk(crc, segs0, floor, records0, contents0)
    requires Spread(segs0, start, ps, r, segs) && contents == Above(Overlay(segs), floor) && floor < start
    ensures Found(segs0, contents0, floor, start, ps, r, contents)
  {
    hide Overlay, Ordered, IndexOk;
    forall k: nat
      ensures Get(contents, k) ==
              if start + r <= k < start + |ps| then Some(ps[k - start])
              else if segs0 != [] && Last(segs0).End() <= k < Last(segs0).End() + r && floor < k then Some(ps[k - Last(segs0).End()])
              else Get(contents0, k)
    {
      ReadIsIndexed(crc, segs0, floor, records0, contents0, k);
      assert Get(Overlay(segs), k) == SpreadAt(segs0, start, ps, r, k);
    }
  }

  /**
   Entries appended past a gap and then reopened: those that fitted the active file, `r` of them, are
   found counted from the end of its records if that is above the floor, and otherwise are gone; the
   others are found under their own index. Nothing else changes.
   */
  method AppendThenReopen(store: LogStore, es: seq<RaftEntry>, ghost start: nat) returns (ok: bool, again: LogStore)
    requires store.Valid() && Consecutive(es, start) && (es != [] ==> store.log.IsNext(start))
    requires store.log.floor < start && (store.log.segs != [] ==> Last(store.log.segs).End() <= start)
    modifies store.log
    ensures ok <==> forall i :: 0 <= i < |es| ==> Fits(store.codec.encode(es[i]))
    ensures again.file == store.file && again.codec == store.codec
    ensures var floor, segs0, contents0 := FloorOf(store.file.lastPurged), old(store.log.segs), old(store.log.contents);
            var r := Filling(old(store.log.active), store.log.maxBytes, EncodedAll(store.codec, es));
            ok ==> Found(segs0, contents0, floor, start, EncodedAll(store.codec, es), r, again.log.contents)
  {
    hide Frames.Encode, Ordered, GapFree, Stored, Synced, IndexOk, StartsOf, ActiveOf, Recoverable, ReadBack, Above, EntriesAbove, Spread, Filling, ReadAbove, Overlay, Found;
    var log := store.log;
    ghost var segs0, records0, contents0, active0, floor := log.segs, log.records, log.contents, log.active, log.floor;
    ok := store.Append(es, start);
    again := new LogStore(store.codec, log.crc, log.maxBytes, log.files, store.file, log.segs);
    if ok {
      ReadOverlay(log.crc, log.segs, log.files, log.durable, floor, again.log.contents);
      ghost var ps := EncodedAll(store.codec, es);
      FoundIs(log.crc, segs0, floor, records0, contents0, start, ps, Filling(active0, log.maxBytes, ps), log.segs, again.log.contents);
    }
  }

  /** Files that hold their segments are read back whole. */
  lemma ReadOverlay(crc: Checksum, segs: seq<Segment>, files: map<nat, Bytes>, durable: map<nat, nat>, floor: int, contents: map<nat, Bytes>)
    requires DiskOk(crc, segs, files, durable)
    ensures Recoverable(crc, segs, files)
    ensures ReadAbove(crc, segs, files, floor, contents) ==> contents == Above(Overlay(segs), floor)
  {
    hide Frames.Encode, Ordered, GapFree, Stored, Synced, IndexOk, Recoverable, ReadBack, Above, Overlay;
    StoredReadBack(crc, segs, files);
    if ReadAbove(crc, segs, files, floor, contents) {
      var records1, contents1 :| IndexOk(crc, ReadBack(crc, segs, files), -1, records1, contents1) && contents == Above(contents1, floor);
      OverlayOrdered(crc, segs, records1, contents1);
    }
  }

  /** A store reopened from the files and metadata of another holds exactly the same entries. */
  method Reopen(store: LogStore) returns (again: LogStore)
    requires store.Valid()
    ensures again.Valid() && again.codec == store.codec && again.file == store.file
    ensures again.log.contents == store.log.contents
  {
    hide Frames.Encode, Ordered, GapFree, Stored, Synced, IndexOk, StartsOf, ActiveOf, Recoverable, ReadBack, Above, EntriesAbove;
    var log := store.log;
    StoredReadBack(log.crc, log.segs, log.files);
    StoredEntries(store.codec, log.crc, log.segs, log.floor, log.records, log.contents);
    again := new LogStore(store.codec, log.crc, log.maxBytes, log.files, store.file, log.segs);
    ghost var records1, contents1 :|
      IndexOk(log.crc, ReadBack(log.crc, log.segs, log.files), -1, records1, contents1) &&
      again.log.contents == Above(contents1, log.floor);
    ReopenRefines(log.crc, log.segs, log.files, log.durable, log.floor, log.records, log.contents, records1, contents1);
  }

  /**
   A store reopened after a crash holds only entries the store held, unchanged, and every durable
   one of them; the metadata file, replaced atomically, is whole.
   */
  method ReopenAfterCrash(store: LogStore, left: map<nat, Bytes>) returns (again: LogStore)
    requires store.Valid() && Crashed(store.log.files, store.log.durable, left)
    ensures again.Valid() && again.codec == store.codec && again.file == store.file
    ensures forall k :: k in again.log.contents ==> k in store.log.contents && again.log.contents[k] == store.log.contents[k]
    ensures forall k :: k in store.log.contents && Ordered(store.log.segs) && WasDurable(store.log.crc, store.log.segs, store.log.durable, k) ==>
              k in again.log.contents
  {
    hide Frames.Encode, Ordered, GapFree, Stored, Synced, IndexOk, StartsOf, ActiveOf, Recoverable, ReadBack, Above, EntriesAbove, Crashed, WasDurable;
    var log := store.log;
    CrashCuts(log.crc, log.segs, log.files, log.durable, left);
    StoredEntries(store.codec, log.crc, log.segs, log.floor, log.records, log.contents);
    again := new LogStore(store.codec, log.crc, log.maxBytes, left, store.file, log.segs);
    ghost var records1, contents1 :|
      IndexOk(log.crc, ReadBack(log.crc, log.segs, left), -1, records1, contents1) &&
      again.log.contents == Above(contents1, log.floor);
    CrashRefines(log.crc, log.segs, log.files, log.durable, log.floor, log.records, log.contents, left, records1, contents1);
  }

  /** The moments of a purge: its floor is persisted or not, and `e` of its files are deleted, none before that. */
  lemma PurgeMoments(crc: Checksum, segs: seq<Segment>, file: Meta, before: Directory, logId: LogId, writes: seq<OnDisk>, after: seq<Directory>, p: OnDisk)
    returns (persisted: bool, d: nat, e: nat, gone: set<nat>)
    requires DiskOk(crc, segs, before.files, before.durable) && GapFree(segs)
    requires Purging(file, before, StartsOf(segs), logId, writes, after) && Passes(file, before, writes, after, p)
    ensures PurgePoint(segs, logId.index, d) && e <= d && (persisted || e == 0) && Outside(segs, gone, e, |segs|)
    ensures p == OnDisk(if persisted then file.(lastPurged := Some(logId)) else file, Without(before, gone))
  {
    hide DiskOk, GapFree, StartsOf, OneByOne, FirstOf, Superseded, Outside, PurgePoint;
    DiskOrdered(crc, segs, before.files, before.durable);
    d := PurgePointExists(segs, logId.index);
    DeletedCount(segs, before, logId.index, after, d);
    persisted, e := p != OnDisk(file, before), 0;
    if p != OnDisk(file, before) && p !in writes {
      var i :| 0 <= i < |after| && p == OnDisk(writes[0].meta, after[i]);
      e := i + 1;
    }
    gone := FirstOf(StartsOf(segs), e);
    FirstOutside(segs, e);
    AtIsWithout(before, StartsOf(segs), logId.index, after, e);
  }

  /** As many files go as lie at or below the index. */
  lemma DeletedCount(segs: seq<Segment>, before: Directory, index: nat, after: seq<Directory>, d: nat)
    requires Ordered(segs) && GapFree(segs) && PurgePoint(segs, index, d) && OneByOne(before, StartsOf(segs), index, after)
    ensures |after| == d && |StartsOf(segs)| == |segs|
  {
    assert |after| <= |StartsOf(segs)|;
    hide GapFree, PurgePoint, Without, OneByOne;
    PointWithin(segs, index, d);
    if d < |segs| {
      DeletedIff(segs, before, index, after, d, d);
    }
    if |after| < |segs| {
      DeletedIff(segs, before, index, after, d, |after|);
    }
  }

  lemma DeletedIff(segs: seq<Segment>, before: Directory, index: nat, after: seq<Directory>, d: nat, i: nat)
    requires Ordered(segs) && GapFree(segs) && PurgePoint(segs, index, d) && OneByOne(before, StartsOf(segs), index, after) && i < |segs|
    ensures i < |after| <==> i < d
  {
    hide GapFree, PurgePoint, Without, FirstOf, Superseded, Deletable;
    DeletableIff(segs, index, d, i);
    FirstIff(segs, |after|, i);
    SupersededIff(segs, index, i);
  }

  lemma FirstIff(segs: seq<Segment>, e: nat, i: nat)
    requires Ordered(segs) && i < |segs| && e <= |StartsOf(segs)|
    ensures StartsOf(segs)[i] in FirstOf(StartsOf(segs), e) <==> i < e
  {
  }

  lemma SupersededIff(segs: seq<Segment>, index: nat, i: nat)
    requires Ordered(segs) && i < |segs|
    ensures StartsOf(segs)[i] in Superseded(StartsOf(segs), index) <==> Deletable(StartsOf(segs), i, index)
  {
    hide Deletable;
  }

  lemma FirstOutside(segs: seq<Segment>, e: nat)
    requires Ordered(segs) && e <= |segs| == |StartsOf(segs)|
    ensures Outside(segs, FirstOf(StartsOf(segs), e), e, |segs|)
  {
    hide FirstOf;
    forall i | 0 <= i < |segs| ensures segs[i].start in FirstOf(StartsOf(segs), e) <==> i < e {
      FirstIff(segs, e, i);
    }
  }

  /**
   A store reopened after a crash at any moment of a purge: it holds only entries the store held above
   the floor that was left, unchanged, and every durable one of them. The moments are those `Purge`
   is shown to pass through.
   */
  method ReopenInsidePurge(store: LogStore, logId: LogId, ghost writes: seq<OnDisk>, ghost after: seq<Directory>, ghost p: OnDisk, file: Meta,
                           left: map<nat, Bytes>) returns (again: LogStore)
    requires store.Valid() && FloorOf(store.file.lastPurged) <= logId.index
    requires Purging(store.file, Directory(store.log.files, store.log.durable), store.log.starts, logId, writes, after)
    requires Passes(store.file, Directory(store.log.files, store.log.durable), writes, after, p)
    requires file == p.meta && Crashed(p.dir.files, p.dir.durable, left)
    ensures again.Valid() && again.codec == store.codec && again.file == file
    ensures forall k :: k in again.log.contents ==> k in store.log.contents && again.log.contents[k] == store.log.contents[k]
    ensures forall k :: k in store.log.contents && FloorOf(again.file.lastPurged) < k ==>
              Ordered(store.log.segs) && WasDurable(store.log.crc, store.log.segs, store.log.durable, k) ==> k in again.log.contents
  {
    hide Frames.Encode, Ordered, GapFree, Stored, Synced, IndexOk, StartsOf, ActiveOf, Recoverable, ReadBack, EntriesAbove, Crashed, WasDurable, Outside, PurgePoint,
         Purging, Passes, DiskOk, Encoded, Invertible;
    var log := store.log;
    ghost var persisted, d, e, gone := PurgeMoments(log.crc, log.segs, store.file, Directory(log.files, log.durable), logId, writes, after, p);
    again := ReopenAtPoint(store, logId, file, persisted, d, e, gone, left);
  }

  /**
   The same by the point the purge has reached: its floor was persisted or not, and `e` of its files
   are deleted.
   */
  method ReopenAtPoint(store: LogStore, logId: LogId, file: Meta, ghost persisted: bool, ghost d: nat, ghost e: nat, ghost gone: set<nat>,
                       left: map<nat, Bytes>) returns (again: LogStore)
    requires store.Valid() && FloorOf(store.file.lastPurged) <= logId.index
    requires PurgePoint(store.log.segs, logId.index, d) && e <= d && (persisted || e == 0) && Outside(store.log.segs, gone, e, |store.log.segs|)
    requires file == if persisted then store.file.(lastPurged := Some(logId)) else store.file
    requires Crashed(store.log.files - gone, store.log.durable - gone, left)
    ensures again.Valid() && again.codec == store.codec && again.file == file
    ensures forall k :: k in again.log.contents ==> k in store.log.contents && again.log.contents[k] == store.log.contents[k]
    ensures forall k :: k in store.log.contents && FloorOf(again.file.lastPurged) < k ==>
              Ordered(store.log.segs) && WasDurable(store.log.crc, store.log.segs, store.log.durable, k) ==> k in again.log.contents
  {
    hide Frames.Encode, Ordered, GapFree, Stored, Synced, IndexOk, StartsOf, ActiveOf, Recoverable, ReadBack, EntriesAbove, Crashed, WasDurable, Outside, PurgePoint;
    var log := store.log;
    ghost var f := FloorLeft(log.floor, logId.index, persisted);
    PointWithin(log.segs, logId.index, d);
    ghost var rest := log.segs[e..];
    MidPurgeOk(log.crc, log.segs, log.files, log.durable, log.floor, log.records, log.contents, f, logId.index, d, e, gone);
    CrashCuts(log.crc, rest, log.files - gone, log.durable - gone, left);
    SlicedGapFree(log.segs, e, |log.segs|);
    assert log.segs[e..|log.segs|] == rest;
    StoredEntries(store.codec, log.crc, rest, f, Above(log.records, f), Above(log.contents, f));
    again := new LogStore(store.codec, log.crc, log.maxBytes, left, file, rest);
    ghost var records1, contents1 :| IndexOk(log.crc, ReadBack(log.crc, rest, left), -1, records1, contents1) && again.log.contents == Above(contents1, f);
    CrashInPurge(log.crc, log.segs, log.files, log.durable, log.floor, log.records, log.contents, logId.index, d, persisted, e, gone, left, records1, contents1);
  }

  lemma PointWithin(segs: seq<Segment>, index: nat, d: nat)
    requires PurgePoint(segs, index, d)
    ensures d <= |segs|
  {
  }
}
