/**
 What a reopened log holds: after a clean stop, after a crash that tears its tail, after a crash
 inside a purge, and after an append past a gap.
 */
module LogRecovery {
  import opened Frames
  import opened Segments
  import opened LogIndex
  import opened LogDisk
  import opened SegmentedLogs

  /** A consistent log: the files hold `segs`, the index holds `contents` above `floor`. */
  ghost predicate LogOk(crc: Checksum, segs: seq<Segment>, files: map<nat, Bytes>, durable: map<nat, nat>,
                        floor: int, records: map<nat, RecordLoc>, contents: map<nat, Bytes>)
  {
    DiskOk(crc, segs, files, durable) && IndexOk(crc, segs, floor, records, contents)
  }

  /** What a crash may leave: of every file a prefix that contains its durable part. */
  predicate Crashed(files: map<nat, Bytes>, durable: map<nat, nat>, left: map<nat, Bytes>) {
    && left.Keys == files.Keys && durable.Keys == files.Keys
    && forall s :: s in files ==> left[s] <= files[s] && durable[s] <= |left[s]|
  }

  lemma CrashCuts(crc: Checksum, segs: seq<Segment>, files: map<nat, Bytes>, durable: map<nat, nat>, left: map<nat, Bytes>)
    requires DiskOk(crc, segs, files, durable) && Crashed(files, durable, left)
    ensures Recoverable(crc, segs, left)
  {
    hide Frames.Encode, GapFree;
    assert forall i :: 0 <= i < |segs| ==> segs[i].start in left;
    forall i | 0 <= i < |segs| - 1 ensures left[segs[i].start] == Encode(crc, segs[i].payloads) {
      assert left[segs[i].start] <= files[segs[i].start];
    }
  }

  /** Two indexes over the same segments hold the same records, each above its own floor. */
  lemma SameAboveFloor(crc: Checksum, segs: seq<Segment>, floor: int, records: map<nat, RecordLoc>, contents: map<nat, Bytes>,
                       low: int, records1: map<nat, RecordLoc>, contents1: map<nat, Bytes>)
    requires Ordered(segs) && low <= floor
    requires IndexOk(crc, segs, floor, records, contents) && IndexOk(crc, segs, low, records1, contents1)
    ensures Above(contents1, floor) == contents
  {
    hide Ordered, IndexOk, PayloadIn, Above;
    var above := Above(contents1, floor);
    forall k | k in contents ensures k in above && above[k] == contents[k] {
      var i := IndexHit(crc, segs, floor, records, contents, k);
      IndexHas(crc, segs, low, records1, contents1, i, k);
    }
    forall k | k in above ensures k in contents {
      var i := IndexHit(crc, segs, low, records1, contents1, k);
      IndexHas(crc, segs, floor, records, contents, i, k);
    }
    assert above.Keys == contents.Keys;
  }

  /**
   File-level refinement: reopening the files of a consistent log and applying its purge floor
   again gives exactly the map the log stood for.
   */
  lemma ReopenRefines(crc: Checksum, segs: seq<Segment>, files: map<nat, Bytes>, durable: map<nat, nat>, floor: int,
                      records: map<nat, RecordLoc>, contents: map<nat, Bytes>,
                      records1: map<nat, RecordLoc>, contents1: map<nat, Bytes>)
    requires LogOk(crc, segs, files, durable, floor, records, contents) && -1 <= floor
    requires Ordered(ReadBack(crc, segs, files)) && IndexOk(crc, ReadBack(crc, segs, files), -1, records1, contents1)
    ensures Recoverable(crc, segs, files) && ReadBack(crc, segs, files) == segs
    ensures Above(contents1, floor) == contents
  {
    hide Frames.Encode, Frames.Scan, IndexOk;
    StoredReadBack(crc, segs, files);
    SameAboveFloor(crc, segs, floor, records, contents, -1, records1, contents1);
  }

  lemma StoredReadBack(crc: Checksum, segs: seq<Segment>, files: map<nat, Bytes>)
    requires Ordered(segs) && Stored(crc, segs, files)
    ensures Recoverable(crc, segs, files) && ReadBack(crc, segs, files) == segs
  {
    hide Frames.Encode, Frames.Scan;
    if segs != [] {
      ScanEncode(crc, Last(segs).payloads);
      assert WithLast(segs, Last(segs)) == segs;
    }
  }

  // ---------------------------------------------------------------- torn tail

  /** `g1` is what is left of `g`: a prefix of its records that contains every synced one. */
  ghost predicate LeftOf(crc: Checksum, g: Segment, synced: nat, g1: Segment)
    requires AllFit(g.payloads)
  {
    && g1.start == g.start && g1.payloads <= g.payloads
    && forall j: nat :: SyncedRecords(crc, g, synced, j) ==> j <= |g1.payloads|
  }

  /** Of every segment a prefix is read back that contains every synced record; of all but the last, everything. */
  lemma TornReadBack(crc: Checksum, segs: seq<Segment>, files: map<nat, Bytes>, durable: map<nat, nat>, left: map<nat, Bytes>)
    requires DiskOk(crc, segs, files, durable) && Crashed(files, durable, left)
    ensures var read := ReadBack(crc, segs, left);
            && Recoverable(crc, segs, left) && Ordered(read) && (GapFree(segs) ==> GapFree(read)) && |read| == |segs|
            && (forall i :: 0 <= i < |segs| - 1 ==> read[i] == segs[i])
            && (segs != [] ==> Last(segs).start in durable && LeftOf(crc, Last(segs), durable[Last(segs).start], Last(read)))
  {
    hide Frames.Encode, Frames.Scan, GapFree, Frames.OffsetOf;
    CrashCuts(crc, segs, files, durable, left);
    RecoveredOrdered(crc, segs, left);
    if segs != [] {
      var last := Last(segs);
      assert last.start in files;
      hide Ordered, Named, Stored, Synced;
      TornSegment(crc, last, durable[last.start], left[last.start]);
    }
  }

  /** Record `k` was durable: it is not in the last segment, or its whole frame lies in the synced part of that file. */
  ghost predicate WasDurable(crc: Checksum, segs: seq<Segment>, durable: map<nat, nat>, k: nat)
    requires Ordered(segs)
  {
    exists i :: 0 <= i < |segs| && Covers(segs[i], k) &&
      (i == |segs| - 1 ==> segs[i].start in durable && SyncedRecords(crc, segs[i], durable[segs[i].start], k + 1 - segs[i].start))
  }

  /**
   Torn-tail recovery: whatever a crash leaves of the files, the reopened log under the same purge
   floor holds only records the log held, unchanged, and every durable one of them.
   */
  lemma CrashRefines(crc: Checksum, segs: seq<Segment>, files: map<nat, Bytes>, durable: map<nat, nat>, floor: int,
                     records: map<nat, RecordLoc>, contents: map<nat, Bytes>, left: map<nat, Bytes>,
                     records1: map<nat, RecordLoc>, contents1: map<nat, Bytes>)
    requires LogOk(crc, segs, files, durable, floor, records, contents) && -1 <= floor && Crashed(files, durable, left)
    requires Ordered(ReadBack(crc, segs, left)) && IndexOk(crc, ReadBack(crc, segs, left), -1, records1, contents1)
    ensures Recoverable(crc, segs, left)
    ensures forall k :: k in Above(contents1, floor) ==> k in contents && contents1[k] == contents[k]
    ensures forall k :: k in contents && WasDurable(crc, segs, durable, k) ==> k in Above(contents1, floor)
  {
    hide Frames.Encode, Frames.Scan, Frames.OffsetOf, Above, ReadBack, Recoverable, Stored, Synced, GapFree;
    TornReadBack(crc, segs, files, durable, left);
    var read := ReadBack(crc, segs, left);
    forall k | k in contents1 && floor < k ensures k in contents && contents1[k] == contents[k] {
      LeftWasThere(crc, segs, read, floor, records, contents, records1, contents1, durable, k);
    }
    forall k | k in contents && WasDurable(crc, segs, durable, k) ensures k in contents1 && floor < k {
      DurableIsLeft(crc, segs, read, floor, records, contents, records1, contents1, durable, k);
    }
  }

  /** Of every segment but the last everything is left, and of the last what `LeftOf` says. */
  ghost predicate LeftAll(crc: Checksum, segs: seq<Segment>, read: seq<Segment>, durable: map<nat, nat>)
    requires Ordered(segs)
  {
    && |read| == |segs| && (forall i :: 0 <= i < |segs| - 1 ==> read[i] == segs[i])
    && (segs != [] ==> Last(segs).start in durable && LeftOf(crc, Last(segs), durable[Last(segs).start], Last(read)))
  }

  lemma LeftWasThere(crc: Checksum, segs: seq<Segment>, read: seq<Segment>, floor: int, records: map<nat, RecordLoc>,
                     contents: map<nat, Bytes>, records1: map<nat, RecordLoc>, contents1: map<nat, Bytes>, durable: map<nat, nat>, k: nat)
    requires Ordered(segs) && Ordered(read) && LeftAll(crc, segs, read, durable) && -1 <= floor
    requires IndexOk(crc, segs, floor, records, contents) && IndexOk(crc, read, -1, records1, contents1)
    requires k in contents1 && floor < k
    ensures k in contents && contents1[k] == contents[k]
  {
    hide IndexOk, Ordered, SyncedRecords;
    var i := IndexHit(crc, read, -1, records1, contents1, k);
    IndexHas(crc, segs, floor, records, contents, i, k);
  }

  lemma DurableIsLeft(crc: Checksum, segs: seq<Segment>, read: seq<Segment>, floor: int, records: map<nat, RecordLoc>,
                      contents: map<nat, Bytes>, records1: map<nat, RecordLoc>, contents1: map<nat, Bytes>, durable: map<nat, nat>, k: nat)
    requires Ordered(segs) && Ordered(read) && LeftAll(crc, segs, read, durable) && -1 <= floor
    requires IndexOk(crc, segs, floor, records, contents) && IndexOk(crc, read, -1, records1, contents1)
    requires k in contents && WasDurable(crc, segs, durable, k)
    ensures k in contents1 && floor < k
  {
    hide IndexOk, SyncedRecords, PayloadIn;
    var j := IndexHit(crc, segs, floor, records, contents, k);
    var i :| 0 <= i < |segs| && Covers(segs[i], k) &&
      (i == |segs| - 1 ==> segs[i].start in durable && SyncedRecords(crc, segs[i], durable[segs[i].start], k + 1 - segs[i].start));
    IndexHas(crc, read, -1, records1, contents1, i, k);
  }

  /** Every record read back from a recoverable directory was in it, unchanged. */
  lemma ReadBackWasThere(crc: Checksum, was: seq<Segment>, disk: map<nat, Bytes>, i: nat, k: nat)
    requires Recoverable(crc, was, disk) && i < |ReadBack(crc, was, disk)| && Covers(ReadBack(crc, was, disk)[i], k)
    ensures i < |was| && Covers(was[i], k) && PayloadIn(was[i], k) == PayloadIn(ReadBack(crc, was, disk)[i], k)
  {
    hide Frames.Encode, Frames.Scan;
    var last := Last(was);
    TornSegment(crc, last, 0, disk[last.start]);
  }

  /**
   An append is atomic: whatever prefix of its frame a crash leaves, the log reads back without the
   record, or with it once the frame is whole; nothing else changes.
   */
  lemma AppendAtomic(crc: Checksum, segs: seq<Segment>, files: map<nat, Bytes>, durable: map<nat, nat>, p: Bytes, cut: nat)
    requires DiskOk(crc, segs, files, durable) && segs != [] && Fits(p) && cut <= |Frame(crc, p)|
    ensures Last(segs).start in files
    ensures var more := WithLast(segs, Grown(Last(segs), p));
            var left := files[Last(segs).start := files[Last(segs).start] + Frame(crc, p)[..cut]];
            && Recoverable(crc, more, left)
            && ReadBack(crc, more, left) == if cut == |Frame(crc, p)| then more else segs
  {
    hide Frames.Encode, Frames.Scan, Frames.Frame, GapFree, Synced;
    var last := Last(segs);
    var g, file := Grown(last, p), files[last.start] + Frame(crc, p)[..cut];
    TornAppend(crc, last.payloads, p, cut);
    GrownOrdered(segs, p);
    LastCutShort(crc, segs, files, g, file);
    hide Ordered, Stored, CutShort;
    assert WithLast(WithLast(segs, g), last) == segs;
  }

  /** A file with part of one more frame. */
  lemma TornAppend(crc: Checksum, ps: seq<Bytes>, p: Bytes, cut: nat)
    requires AllFit(ps) && Fits(p) && cut <= |Frame(crc, p)|
    ensures var file := Encode(crc, ps) + Frame(crc, p)[..cut];
            && AllFit(ps + [p]) && file <= Encode(crc, ps + [p])
            && Scan(crc, file) == if cut == |Frame(crc, p)| then ps + [p] else ps
  {
    hide Frames.Encode, Frames.Scan, Frames.Frame;
    EncodeSnoc(crc, ps, p);
    if cut == |Frame(crc, p)| {
      assert Frame(crc, p)[..cut] == Frame(crc, p);
      ScanEncode(crc, ps + [p]);
    } else {
      ScanAppended(crc, ps, Frame(crc, p)[..cut]);
      TornFrame(crc, p, cut);
      assert ps + [] == ps;
    }
  }

  lemma LastCutShort(crc: Checksum, segs: seq<Segment>, files: map<nat, Bytes>, g: Segment, file: Bytes)
    requires segs != [] && Ordered(segs) && Stored(crc, segs, files) && g.start == Last(segs).start
    requires Ordered(WithLast(segs, g)) && AllFit(g.payloads) && file <= Encode(crc, g.payloads)
    ensures CutShort(crc, WithLast(segs, g), files[g.start := file])
  {
    hide Frames.Encode, Frames.AllFit;
    LastNamed(segs, files, g, file);
    var segs1, files1 := WithLast(segs, g), files[g.start := file];
    forall i | 0 <= i < |segs| - 1 ensures segs1[i].start in files1 && files1[segs1[i].start] == Encode(crc, segs1[i].payloads) {
      assert segs1[i] == segs[i];
    }
    hide Ordered, Named;
    assert segs1[|segs| - 1] == g;
  }

  // ---------------------------------------------------------------- purge

  /**
   At every point inside a purge, with the first `e` of the deletable files gone, the directory is
   that of a consistent log for the records above the floor in force.
   */
  lemma MidPurgeOk(crc: Checksum, segs: seq<Segment>, files: map<nat, Bytes>, durable: map<nat, nat>, floor: int,
                   records: map<nat, RecordLoc>, contents: map<nat, Bytes>, f: int, index: nat, d: nat, e: nat, gone: set<nat>)
    requires LogOk(crc, segs, files, durable, floor, records, contents) && floor <= f && (e == 0 || f == index)
    requires PurgePoint(segs, index, d) && e <= d && Outside(segs, gone, e, |segs|)
    ensures LogOk(crc, segs[e..], files - gone, durable - gone, f, Above(records, f), Above(contents, f))
  {
    hide Frames.Encode, Ordered, GapFree, Stored, Synced, IndexOk, Above, Outside;
    DiskSliced(crc, segs, files, durable, gone, e, |segs|);
    assert segs[e..|segs|] == segs[e..];
    IndexPurged(crc, segs, floor, records, contents, f, e);
  }

  /** The purge floor a crash leaves: the new one once it has been persisted. */
  function FloorLeft(floor: int, index: nat, persisted: bool): int {
    if persisted then index else floor
  }

  /** A durable record above the floor that is left is still durable once the first `e` files are gone. */
  lemma StillDurable(crc: Checksum, segs: seq<Segment>, durable: map<nat, nat>, index: nat, e: nat, gone: set<nat>, k: nat)
    requires Ordered(segs) && e <= |segs| && Ordered(segs[e..]) && Outside(segs, gone, e, |segs|)
    requires (forall i :: 0 <= i < e ==> segs[i].End() <= index + 1) && (e == 0 || index < k)
    requires WasDurable(crc, segs, durable, k)
    ensures WasDurable(crc, segs[e..], durable - gone, k)
  {
    hide SyncedRecords;
    var i :| 0 <= i < |segs| && Covers(segs[i], k) &&
      (i == |segs| - 1 ==> segs[i].start in durable && SyncedRecords(crc, segs[i], durable[segs[i].start], k + 1 - segs[i].start));
    var j := i - e;
    assert segs[e..][j] == segs[i];
  }

  /**
   Crash-safe purge. The purge persists its floor, then deletes files one by one. Wherever a crash
   stops it, and whatever the crash leaves of the files, a reopen under the floor that was left holds
   only records the log held, unchanged, and every durable one of them.
   */
  lemma CrashInPurge(crc: Checksum, segs: seq<Segment>, files: map<nat, Bytes>, durable: map<nat, nat>, floor: int,
                     records: map<nat, RecordLoc>, contents: map<nat, Bytes>, index: nat, d: nat, persisted: bool, e: nat, gone: set<nat>,
                     left: map<nat, Bytes>, records1: map<nat, RecordLoc>, contents1: map<nat, Bytes>)
    requires LogOk(crc, segs, files, durable, floor, records, contents) && -1 <= floor <= index
    requires PurgePoint(segs, index, d) && e <= d && (persisted || e == 0) && Outside(segs, gone, e, |segs|)
    requires Crashed(files - gone, durable - gone, left)
    requires Ordered(ReadBack(crc, segs[e..], left)) && IndexOk(crc, ReadBack(crc, segs[e..], left), -1, records1, contents1)
    ensures Recoverable(crc, segs[e..], left)
    ensures forall k :: k in Above(contents1, FloorLeft(floor, index, persisted)) ==> k in contents && contents1[k] == contents[k]
    ensures forall k :: k in contents && FloorLeft(floor, index, persisted) < k && WasDurable(crc, segs, durable, k) ==> k in contents1
  {
    hide Frames.Encode, GapFree, Stored, Synced, IndexOk, Outside, ReadBack, Recoverable, WasDurable, Crashed;
    var f := FloorLeft(floor, index, persisted);
    MidPurgeOk(crc, segs, files, durable, floor, records, contents, f, index, d, e, gone);
    CrashRefines(crc, segs[e..], files - gone, durable - gone, f, Above(records, f), Above(contents, f), left, records1, contents1);
    forall k | k in contents && f < k && WasDurable(crc, segs, durable, k) ensures k in contents1 {
      StillDurable(crc, segs, durable, index, e, gone, k);
      assert k in Above(contents, f);
    }
  }

  // ---------------------------------------------------------------- appends past a gap

  /** While the log holds a record, the only index a caller may append is where its frame will be read back. */
  lemma NextIsEnd(crc: Checksum, segs: seq<Segment>, floor: int, records: map<nat, RecordLoc>, contents: map<nat, Bytes>, index: nat)
    requires Ordered(segs) && GapFree(segs) && IndexOk(crc, segs, floor, records, contents) && contents.Keys != {}
    requires index - 1 in contents.Keys && forall k :: k in contents.Keys ==> k < index
    ensures floor < index && segs != [] && index == Last(segs).End()
  {
    hide Frames.Encode, IndexOk, PayloadIn;
    var i := IndexHit(crc, segs, floor, records, contents, index - 1);
    var n := |segs| - 1;
    var j := if segs[n].payloads != [] then n else n - 1;
    if n > 0 {
      OnlyLastEmpty(segs, n - 1);
    }
    assert segs[j].End() == segs[n].End() && segs[i].End() <= segs[n].End();
    if index < segs[j].End() {
      assert Covers(segs[j], segs[j].End() - 1);
      IndexHas(crc, segs, floor, records, contents, j, segs[j].End() - 1);
    }
  }

  /**
   A log that holds nothing: its last file ends at or below the purge floor, unless it has just one
   file, and that one empty.
   */
  lemma EmptyLogEnd(crc: Checksum, segs: seq<Segment>, floor: int, records: map<nat, RecordLoc>, contents: map<nat, Bytes>)
    requires Ordered(segs) && GapFree(segs) && IndexOk(crc, segs, floor, records, contents) && contents.Keys == {} && segs != []
    ensures Last(segs).End() <= floor + 1 || segs == [Segment(Last(segs).start, [])]
  {
    hide Frames.Encode, IndexOk, PayloadIn;
    var n := |segs| - 1;
    if segs[n].payloads != [] {
      if floor + 1 < segs[n].End() {
        IndexHas(crc, segs, floor, records, contents, n, segs[n].End() - 1);
      }
    } else if n > 0 {
      var j := n - 1;
      OnlyLastEmpty(segs, j);
      assert segs[j].End() == segs[n].start;
      if floor + 1 < segs[j].End() {
        IndexHas(crc, segs, floor, records, contents, j, segs[j].End() - 1);
      }
    }
  }

  /**
   The segments after an append of `p` at `index` to a log that holds nothing: after a rotation a
   new one of that name, else one more record in the last.
   */
  function AfterAppend(segs: seq<Segment>, rotates: bool, index: nat, p: Bytes): seq<Segment>
    requires segs != [] || rotates
  {
    if !rotates || (segs != [] && Last(segs).start == index) then WithLast(segs, Grown(Last(segs), p))
    else if segs != [] && index < Last(segs).start then [Segment(index, [p])] + segs
    else segs + [Segment(index, [p])]
  }

  /** The file the frame goes to. */
  function TargetFile(segs: seq<Segment>, rotates: bool, index: nat): nat
    requires segs != [] || rotates
  {
    if rotates then index else Last(segs).start
  }

  /** Those are the segments the files hold, rotated or not. */
  lemma GapAppendFiles(crc: Checksum, segs: seq<Segment>, files: map<nat, Bytes>, durable: map<nat, nat>, floor: int,
                       rotates: bool, index: nat, p: Bytes)
    requires DiskOk(crc, segs, files, durable) && Fits(p) && (segs != [] || rotates) && floor < index
    requires segs != [] ==> Last(segs).End() <= floor + 1 || segs == [Segment(Last(segs).start, [])]
    ensures var more, files1 := AfterAppend(segs, rotates, index, p), WrittenTo(files, TargetFile(segs, rotates, index), Frame(crc, p));
            Ordered(more) && Recoverable(crc, more, files1) && ReadBack(crc, more, files1) == more
  {
    hide Frames.Encode, Frames.Frame, Ordered, Stored, Synced, Recoverable, ReadBack;
    var more, files1 := AfterAppend(segs, rotates, index, p), WrittenTo(files, TargetFile(segs, rotates, index), Frame(crc, p));
    if !rotates || (segs != [] && Last(segs).start == index) {
      DiskSynced(crc, segs, files, durable);
      DiskGrown(crc, segs, files, durable, p);
    } else {
      NewFileStored(crc, segs, files, index, p);
    }
    StoredReadBack(crc, more, files1);
  }

  lemma FrameAlone(crc: Checksum, p: Bytes)
    requires Fits(p)
    ensures AllFit([p]) && Encode(crc, [p]) == Frame(crc, p)
  {
    hide Frames.Frame;
    EncodeSnoc(crc, [], p);
    EncodeNone(crc);
    assert [] + [p] == [p];
    assert [] + Frame(crc, p) == Frame(crc, p);
  }

  /** A file of its own for the one record, after all others. */
  lemma LaterFileStored(crc: Checksum, segs: seq<Segment>, files: map<nat, Bytes>, index: nat, p: Bytes)
    requires Ordered(segs) && Stored(crc, segs, files) && Fits(p)
    requires segs != [] ==> Last(segs).start < index && Last(segs).End() <= index
    ensures Ordered(segs + [Segment(index, [p])]) && index !in files
    ensures Stored(crc, segs + [Segment(index, [p])], files[index := Frame(crc, p)])
  {
    FrameAlone(crc, p);
    RotatedOrdered(segs, index);
    PushedOrdered(segs, index, p);
    hide Frames.Encode, Frames.Frame, Ordered;
    RotatedNamed(segs, files, index);
    PushedNamed(segs, files, index, p, Frame(crc, p));
    hide Named;
    var more, files1 := segs + [Segment(index, [p])], files[index := Frame(crc, p)];
    forall i | 0 <= i < |more| ensures files1[more[i].start] == Encode(crc, more[i].payloads) {
      if i < |segs| {
        assert more[i] == segs[i] && segs[i].start < index;
      }
    }
  }

  lemma PushedOrdered(segs: seq<Segment>, index: nat, p: Bytes)
    requires Ordered(segs + [Segment(index, [])]) && AllFit([p])
    ensures Ordered(segs + [Segment(index, [p])])
  {
    var more, bare := segs + [Segment(index, [p])], segs + [Segment(index, [])];
    assert bare[|segs|].start == index && forall i :: 0 <= i < |segs| ==> more[i] == bare[i];
  }

  lemma PushedNamed(segs: seq<Segment>, files: map<nat, Bytes>, index: nat, p: Bytes, file: Bytes)
    requires Named(segs + [Segment(index, [])], files[index := []])
    ensures Named(segs + [Segment(index, [p])], files[index := file])
  {
    var more, bare, files1 := segs + [Segment(index, [p])], segs + [Segment(index, [])], files[index := file];
    assert forall i :: 0 <= i < |more| ==> more[i].start == bare[i].start;
    forall s | s in files1 ensures exists i :: 0 <= i < |more| && more[i].start == s {
      assert s in files[index := []];
      var i :| 0 <= i < |bare| && bare[i].start == s;
      assert more[i].start == s;
    }
  }

  /** A file of its own for the one record, before the only other file. */
  lemma EarlierFileStored(crc: Checksum, start: nat, files: map<nat, Bytes>, index: nat, p: Bytes)
    requires Ordered([Segment(start, [])]) && Stored(crc, [Segment(start, [])], files) && Fits(p) && index < start
    ensures index !in files && Ordered([Segment(index, [p]), Segment(start, [])])
    ensures Stored(crc, [Segment(index, [p]), Segment(start, [])], files[index := Frame(crc, p)])
  {
    FrameAlone(crc, p);
    hide Frames.Encode, Frames.Frame;
    var segs, more := [Segment(start, [])], [Segment(index, [p]), Segment(start, [])];
    assert segs[0].start in files && more[0].start == index && more[1].start == start;
  }

  lemma NewFileStored(crc: Checksum, segs: seq<Segment>, files: map<nat, Bytes>, index: nat, p: Bytes)
    requires Ordered(segs) && Stored(crc, segs, files) && Fits(p)
    requires segs != [] ==> Last(segs).start != index && (Last(segs).End() <= index || segs == [Segment(Last(segs).start, [])])
    ensures var more, files1 := AfterAppend(segs, true, index, p), WrittenTo(files, index, Frame(crc, p));
            Ordered(more) && Stored(crc, more, files1)
  {
    hide Frames.Encode, Frames.Frame, Ordered, Stored;
    if segs != [] && index < Last(segs).start {
      EarlierFileStored(crc, Last(segs).start, files, index, p);
      assert [Segment(index, [p])] + segs == [Segment(index, [p]), Segment(Last(segs).start, [])];
    } else {
      LaterFileStored(crc, segs, files, index, p);
    }
    assert [] + Frame(crc, p) == Frame(crc, p);
  }

  /**
   Appending to an empty log, at any index above its floor as the contract of `append` allows:
   the record is found under its index after a reopen if and only if the append rotated to a new
   file or the index is where the last file ends. Otherwise it is found under the file's end.
   */
  lemma GapAppendIff(crc: Checksum, segs: seq<Segment>, floor: int, rotates: bool, index: nat, p: Bytes,
                     records1: map<nat, RecordLoc>, contents1: map<nat, Bytes>)
    requires -1 <= floor < index && (segs != [] || rotates)
    requires segs != [] ==> Last(segs).End() <= floor + 1 || segs == [Segment(Last(segs).start, [])]
    requires Ordered(AfterAppend(segs, rotates, index, p))
    requires IndexOk(crc, AfterAppend(segs, rotates, index, p), -1, records1, contents1)
    ensures index in contents1 && contents1[index] == p <==> rotates || index == Last(segs).End()
    ensures !rotates && index != Last(segs).End() ==>
              var end := Last(segs).End();
              index !in contents1 && end in contents1 && contents1[end] == p
  {
    hide Frames.Encode, IndexOk;
    var more := AfterAppend(segs, rotates, index, p);
    var at := if rotates then index else Last(segs).End();
    var n := if rotates && segs != [] && index < Last(segs).start then 0 else |more| - 1;
    IndexHas(crc, more, -1, records1, contents1, n, at);
    if index in contents1 && at != index {
      var i := IndexHit(crc, more, -1, records1, contents1, index);
    }
  }

  /**
   The same of the log itself: append one record to a log that holds nothing, then reopen its
   files. The condition is one the caller can check before the append.
   */
  method AppendThenReopen(log: SegmentedLog, index: nat, payload: Bytes) returns (ok: bool, again: SegmentedLog)
    requires log.Valid() && log.records.Keys == {} && log.floor < index
    modifies log
    ensures ok <==> Fits(payload)
    ensures again.Consistent() && fresh(again)
    ensures ok ==> (index in again.contents && again.contents[index] == payload <==>
                    old(log.NeedsRotation() || (log.segs != [] && index == Last(log.segs).End())))
    ensures ok && index !in again.contents ==>
              var end := old(Last(log.segs).End());
              end in again.contents && again.contents[end] == payload
  {
    hide Frames.Encode, Frames.Frame, Ordered, GapFree, Stored, Synced, IndexOk, StartsOf, Recoverable, ReadBack, WrittenTo, AfterAppend;
    ghost var segs, files, durable := log.segs, log.files, log.durable;
    ghost var rotates := log.NeedsRotation();
    log.ValidKeys();
    log.ValidTracks();
    ok := log.Append(index, payload);
    ghost var more := segs;
    if ok {
      more := AfterAppend(segs, rotates, index, payload);
      if segs != [] {
        EmptyLogEnd(log.crc, segs, log.floor, old(log.records), old(log.contents));
      }
      GapAppendFiles(log.crc, segs, files, durable, log.floor, rotates, index, payload);
    } else {
      StoredReadBack(log.crc, segs, files);
    }
    again := new SegmentedLog(log.crc, log.maxBytes, log.files, more);
    if ok {
      GapAppendIff(log.crc, segs, log.floor, rotates, index, payload, again.records, again.contents);
    }
  }

  /**
   A concrete case: one record at index 1, purged through 10 as a snapshot install does, then an
   append at 11 into the same file. The append is acknowledged and synced; after a reopen and the
   purge floor, nothing is left of it.
   */
  lemma GapAppendLost(crc: Checksum, p: Bytes, q: Bytes, records1: map<nat, RecordLoc>, contents1: map<nat, Bytes>)
    requires Fits(p) && Fits(q)
    requires IndexOk(crc, [Segment(1, [p, q])], -1, records1, contents1)
    ensures AfterAppend([Segment(1, [p])], false, 11, q) == [Segment(1, [p, q])]
    ensures contents1.Keys == {1, 2} && Above(contents1, 10).Keys == {}
  {
    hide Frames.Encode, IndexOk;
    var more := [Segment(1, [p, q])];
    assert [p] + [q] == [p, q];
    IndexHas(crc, more, -1, records1, contents1, 0, 1);
    IndexHas(crc, more, -1, records1, contents1, 0, 2);
    forall k | k in contents1 ensures k == 1 || k == 2 {
      var i := IndexHit(crc, more, -1, records1, contents1, k);
    }
  }

  // ---------------------------------------------------------------- a new file below the end of the last one

  /** The file of the only record of a segment of its own. */
  lemma NewFileRead(crc: Checksum, segs: seq<Segment>, files: map<nat, Bytes>, index: nat, p: Bytes, starts: seq<nat>)
    requires Ordered(segs) && Stored(crc, segs, files) && index !in files && Fits(p)
    requires Ascending(starts) && forall s :: s in starts <==> s in files || s == index
    ensures var files1 := files[index := Frame(crc, p)];
            && (forall i :: 0 <= i < |starts| ==> starts[i] in files1 && !Torn(crc, files1[starts[i]]))
            && (forall i :: 0 <= i < |starts| && starts[i] == index ==> FilesRead(crc, files1, starts)[i] == Segment(index, [p]))
            && (forall i :: 0 <= i < |starts| && starts[i] != index ==> FilesRead(crc, files1, starts)[i] in segs)
  {
    hide Frames.Encode, Frames.Scan, Frames.Frame;
    var files1 := files[index := Frame(crc, p)];
    FrameAlone(crc, p);
    ScanEncode(crc, [p]);
    forall i | 0 <= i < |starts|
      ensures starts[i] in files1 && !Torn(crc, files1[starts[i]])
      ensures Segment(starts[i], Scan(crc, files1[starts[i]])) == Segment(index, [p]) || (starts[i] != index && Segment(starts[i], Scan(crc, files1[starts[i]])) in segs)
    {
      assert starts[i] in starts;
      if starts[i] != index {
        var j :| 0 <= j < |segs| && segs[j].start == starts[i];
        ScanEncode(crc, segs[j].payloads);
        assert segs[j] in segs;
      }
    }
  }

  /** A new file with one record: it is read at its name, over whatever was there, and nothing else changes. */
  lemma NewFileOverlay(crc: Checksum, segs: seq<Segment>, files: map<nat, Bytes>, index: nat, p: Bytes, starts: seq<nat>)
    requires Ordered(segs) && Stored(crc, segs, files) && index !in files && Fits(p)
    requires Ascending(starts) && forall s :: s in starts <==> s in files || s == index
    ensures var files1 := files[index := Frame(crc, p)];
            && (forall i :: 0 <= i < |starts| ==> starts[i] in files1 && !Torn(crc, files1[starts[i]]))
            && Overlay(FilesRead(crc, files1, starts)) == Overlay(segs)[index := p]
  {
    hide Frames.Encode, Frames.Scan, Frames.Frame, Overlay, Torn;
    NewFileRead(crc, segs, files, index, p, starts);
    var read := FilesRead(crc, files[index := Frame(crc, p)], starts);
    forall g | g in segs ensures g in read {
      var j :| 0 <= j < |segs| && segs[j] == g;
      StoredListed(crc, segs, files, index, p, starts, j);
    }
    var a, b := Overlay(read), Overlay(segs)[index := p];
    forall k: nat ensures (k in a <==> k in b) && (k in a ==> a[k] == b[k]) {
      OverlaidAt(segs, read, starts, index, p, k);
    }
    assert a.Keys == b.Keys;
  }

  lemma StoredListed(crc: Checksum, segs: seq<Segment>, files: map<nat, Bytes>, index: nat, p: Bytes, starts: seq<nat>, j: nat)
    requires Ordered(segs) && Stored(crc, segs, files) && index !in files && Fits(p) && j < |segs|
    requires (forall s :: s in starts <==> s in files || s == index) && forall i :: 0 <= i < |starts| ==> starts[i] in files[index := Frame(crc, p)]
    ensures segs[j] in FilesRead(crc, files[index := Frame(crc, p)], starts)
  {
    hide Frames.Encode, Frames.Scan, Frames.Frame;
    assert segs[j].start in starts;
    var i :| 0 <= i < |starts| && starts[i] == segs[j].start;
    ScanEncode(crc, segs[j].payloads);
    assert FilesRead(crc, files[index := Frame(crc, p)], starts)[i] == segs[j];
  }

  lemma OverlaidAt(segs: seq<Segment>, read: seq<Segment>, starts: seq<nat>, index: nat, p: Bytes, k: nat)
    requires Ordered(segs) && Ascending(starts) && |read| == |starts| && index in starts
    requires forall i :: 0 <= i < |starts| ==> read[i].start == starts[i]
    requires forall i :: 0 <= i < |starts| && starts[i] == index ==> read[i] == Segment(index, [p])
    requires forall i :: 0 <= i < |starts| && starts[i] != index ==> read[i] in segs
    requires forall g :: g in segs ==> g in read
    ensures k in Overlay(read) <==> k in Overlay(segs)[index := p]
    ensures k in Overlay(read) ==> Overlay(read)[k] == Overlay(segs)[index := p][k]
  {
    hide PayloadIn, Overlay, AllFit, Ordered;
    OverlayCovered(segs, k);
    OverlayCovered(read, k);
    SameCover(segs, read, starts, index, p, k);
    var m :| 0 <= m < |starts| && starts[m] == index;
    if k == index {
      assert Covers(read[m], k) && forall j :: m < j < |read| ==> !Covers(read[j], k);
      OverlayAt(read, m, k);
      OnlyRecord(index, p);
    } else if Covered(segs, k) {
      var i :| 0 <= i < |segs| && Covers(segs[i], k);
      OneCover(segs, read, index, p, i, k);
    }
  }

  lemma SameCover(segs: seq<Segment>, read: seq<Segment>, starts: seq<nat>, index: nat, p: Bytes, k: nat)
    requires |read| == |starts| && index in starts
    requires forall i :: 0 <= i < |starts| && starts[i] == index ==> read[i] == Segment(index, [p])
    requires forall i :: 0 <= i < |starts| && starts[i] != index ==> read[i] in segs
    requires forall g :: g in segs ==> g in read
    ensures Covered(read, k) <==> Covered(segs, k) || k == index
  {
    if j :| 0 <= j < |read| && Covers(read[j], k) {
      if starts[j] != index {
        var i :| 0 <= i < |segs| && segs[i] == read[j];
        assert Covers(segs[i], k);
      }
    }
    if i :| 0 <= i < |segs| && Covers(segs[i], k) {
      assert segs[i] in segs;
      var j :| 0 <= j < |read| && read[j] == segs[i];
      assert Covers(read[j], k);
    }
    var m :| 0 <= m < |starts| && starts[m] == index;
    assert Covers(read[m], index);
  }

  /** Away from the new record, the segment that covers an index covers it alone. */
  lemma OneCover(segs: seq<Segment>, read: seq<Segment>, index: nat, p: Bytes, i: nat, k: nat)
    requires Ordered(segs) && i < |segs| && Covers(segs[i], k) && k != index && segs[i] in read
    requires forall g :: g in read ==> g == Segment(index, [p]) || g in segs
    ensures k in Overlay(read) && k in Overlay(segs) && Overlay(read)[k] == Overlay(segs)[k]
  {
    hide PayloadIn, Overlay, AllFit;
    var j := LastAt(read, segs[i]);
    forall j' | j < j' < |read| ensures !Covers(read[j'], k) {
      assert read[j'] in read;
      if read[j'] in segs {
        var i' :| 0 <= i' < |segs| && segs[i'] == read[j'];
        assert i' != i;
      }
    }
    OverlayAt(read, j, k);
    OverlayAt(segs, i, k);
  }

  lemma LastAt(read: seq<Segment>, g: Segment) returns (j: nat)
    requires g in read
    ensures j < |read| && read[j] == g && forall j' :: j < j' < |read| ==> read[j'] != g
  {
    j := |read| - 1;
    while read[j] != g
      invariant j < |read| && (forall j' :: j < j' < |read| ==> read[j'] != g)
      invariant exists i :: 0 <= i <= j && read[i] == g
      decreases j
    {
      j := j - 1;
    }
  }

  lemma OnlyRecord(index: nat, p: Bytes)
    ensures PayloadIn(Segment(index, [p]), index) == p
  {
  }

  /** The payloads of a listing, which is all a reader of the log sees. */
  function Payloads(out: seq<(nat, Bytes)>): (ps: seq<Bytes>)
    ensures |ps| == |out| && forall i :: 0 <= i < |out| ==> ps[i] == out[i].1
  {
    seq(|out|, i requires 0 <= i < |out| => out[i].1)
  }

  function KeysOf(out: seq<(nat, Bytes)>): (ks: seq<nat>)
    ensures |ks| == |out| && forall i :: 0 <= i < |out| ==> ks[i] == out[i].0
  {
    seq(|out|, i requires 0 <= i < |out| => out[i].0)
  }

  lemma ListedKeys(out: seq<(nat, Bytes)>, m: map<nat, Bytes>, k: nat)
    requires ListsAll(out, m)
    ensures k in KeysOf(out) <==> k in m
  {
    if k in m {
      assert (k, m[k]) in out;
      var i :| 0 <= i < |out| && out[i] == (k, m[k]);
      assert KeysOf(out)[i] == k;
    }
  }

  /**
   What a reader finds after a new file: the records there were and then the new one if and only if
   every record there was lies below the new file's name. Otherwise one is gone, or comes after it.
   */
  lemma NewFileIff(m: map<nat, Bytes>, index: nat, p: Bytes, before: seq<(nat, Bytes)>, after: seq<(nat, Bytes)>)
    requires ListsAll(before, m) && ListsAll(after, m[index := p]) && forall k :: k in m ==> m[k] != p
    ensures Payloads(after) == Payloads(before) + [p] <==> forall k :: k in m ==> k < index
  {
    if forall k :: k in m ==> k < index {
      var more := before + [(index, p)];
      SameListing(more, after, m[index := p]);
      assert Payloads(more) == Payloads(before) + [p];
    } else {
      var k :| k in m && index <= k;
      NotLast(m, index, p, before, after, k);
    }
  }

  lemma NotLast(m: map<nat, Bytes>, index: nat, p: Bytes, before: seq<(nat, Bytes)>, after: seq<(nat, Bytes)>, k: nat)
    requires ListsAll(before, m) && ListsAll(after, m[index := p]) && (forall k :: k in m ==> m[k] != p) && k in m && index <= k
    ensures Payloads(after) != Payloads(before) + [p]
  {
    if index in m {
      SameKeySeq(before, m, after, m[index := p]);
      assert |after| == |before|;
    } else {
      ListedKeys(after, m[index := p], k);
      var i :| 0 <= i < |after| && KeysOf(after)[i] == k;
      var n := |after| - 1;
      assert after[n].0 > index && m[index := p][after[n].0] == after[n].1 != p;
      assert Payloads(after)[n] == after[n].1 && (Payloads(before) + [p])[|before|] == p;
    }
  }

  lemma SameKeySeq(a: seq<(nat, Bytes)>, m: map<nat, Bytes>, b: seq<(nat, Bytes)>, m': map<nat, Bytes>)
    requires ListsAll(a, m) && ListsAll(b, m') && m.Keys == m'.Keys
    ensures KeysOf(a) == KeysOf(b)
  {
    forall k ensures k in KeysOf(a) <==> k in KeysOf(b) {
      ListedKeys(a, m, k);
      ListedKeys(b, m', k);
    }
    SortedUnique(KeysOf(a), KeysOf(b));
  }

  lemma SameListing(a: seq<(nat, Bytes)>, b: seq<(nat, Bytes)>, m: map<nat, Bytes>)
    requires ListsAll(a, m) && ListsAll(b, m)
    ensures a == b
  {
    SameKeySeq(a, m, b, m);
    forall i | 0 <= i < |a| ensures a[i] == b[i] {
      assert KeysOf(a)[i] == KeysOf(b)[i];
    }
  }

  /** Every record of the segments is read back under an index below this one. */
  ghost predicate AllUnder(segs: seq<Segment>, index: nat) {
    forall k: nat :: Covered(segs, k) ==> k < index
  }

  /** With no damaged file, all are read. */
  lemma AllListed(crc: Checksum, segs: seq<Segment>, files: map<nat, Bytes>, index: nat, p: Bytes, starts: seq<nat>)
    requires Ordered(segs) && Stored(crc, segs, files) && index !in files && Fits(p)
    requires ReadAsFar(crc, files[index := Frame(crc, p)], starts)
    ensures forall s :: s in starts <==> s in files || s == index
  {
    hide Frames.Encode, Frames.Scan, Frames.Frame;
    var files1 := files[index := Frame(crc, p)];
    FrameAlone(crc, p);
    ScanEncode(crc, [p]);
    forall s | s in files1 ensures s in starts {
      if s !in starts {
        var last := starts[|starts| - 1];
        if last != index {
          var j :| 0 <= j < |segs| && segs[j].start == last;
          ScanEncode(crc, segs[j].payloads);
        }
        assert false;
      }
    }
  }

  /**
   The same of the log itself: read it, append a record that begins a new file, and read what a
   reopen finds. The condition is one the caller can check before the append.
   */
  method NewFileThenReopen(log: SegmentedLog, index: nat, payload: Bytes) returns (before: seq<(nat, Bytes)>, after: seq<(nat, Bytes)>)
    requires log.Grounded() && log.NeedsRotation() && index !in log.files && Fits(payload)
    requires forall i, k {:trigger Covers(log.segs[i], k)} :: 0 <= i < |log.segs| && Covers(log.segs[i], k) ==> PayloadIn(log.segs[i], k) != payload
    modifies log
    ensures Payloads(after) == Payloads(before) + [payload] <==> old(AllUnder(log.segs, index))
  {
    hide Frames.Encode, Frames.Frame, Ordered, Stored, Synced, Listed, Filed, Recoverable, ReadBack, Points, Overlay, ReadAsFar, IndexOk, ListsAll, FilesRead, PayloadIn;
    ghost var segs, files := log.segs, log.files;
    StoredReadBack(log.crc, segs, files);
    var first := new SegmentedLog(log.crc, log.maxBytes, log.files, segs);
    OverlayOrdered(log.crc, segs, first.records, first.contents);
    before := first.ReadAll();
    var _ := log.Append(index, payload);
    assert [] + Frame(log.crc, payload) == Frame(log.crc, payload);
    var again := new SegmentedLog(log.crc, log.maxBytes, log.files, []);
    ReadsStarts(log.crc, log.files, again.starts);
    AllListed(log.crc, segs, files, index, payload, again.starts);
    NewFileOverlay(log.crc, segs, files, index, payload, again.starts);
    after := again.ReadAll();
    OverlayDiffers(segs, payload);
    NewFileIff(Overlay(segs), index, payload, before, after);
  }

  lemma ReadsStarts(crc: Checksum, disk: map<nat, Bytes>, starts: seq<nat>)
    requires ReadAsFar(crc, disk, starts)
    ensures Ascending(starts)
  {
  }

  lemma OverlayDiffers(segs: seq<Segment>, p: Bytes)
    requires Ordered(segs) && forall i, k {:trigger Covers(segs[i], k)} :: 0 <= i < |segs| && Covers(segs[i], k) ==> PayloadIn(segs[i], k) != p
    ensures forall k :: k in Overlay(segs) ==> Covered(segs, k) && Overlay(segs)[k] != p
    ensures forall k :: Covered(segs, k) ==> k in Overlay(segs)
  {
    hide PayloadIn, Overlay;
    forall k | k in Overlay(segs) || Covered(segs, k) ensures k in Overlay(segs) && Covered(segs, k) && Overlay(segs)[k] != p {
      OverlayCovered(segs, k);
      var i :| 0 <= i < |segs| && Covers(segs[i], k);
      OverlayAt(segs, i, k);
    }
  }

  /** If the last file is not empty, that condition is that the new file begins at or past its end. */
  lemma BelowIsEnd(segs: seq<Segment>, index: nat)
    requires Ordered(segs) && segs != [] && Last(segs).payloads != []
    ensures AllUnder(segs, index) <==> Last(segs).End() <= index
  {
    var n := |segs| - 1;
    assert Covers(segs[n], segs[n].End() - 1) && Covered(segs, segs[n].End() - 1);
    forall k: nat | Covered(segs, k) ensures k < Last(segs).End() {
      var i :| 0 <= i < |segs| && Covers(segs[i], k);
      assert i < n ==> segs[i].End() <= segs[n].start;
    }
  }

  /**
   A concrete case. A rotation for number 2 was torn after number 1 had been used up, so that 1 and 2
   were given again, to records that went into the file named 2. The rotation at 3 begins a file whose
   record is read over the second of them.
   */
  lemma NewFileShadows(crc: Checksum, p: Bytes, q: Bytes, r: Bytes, starts: seq<nat>)
    requires Fits(p) && Fits(q) && Fits(r) && AllFit([p, q])
    requires Ascending(starts) && forall s :: s in starts <==> s == 2 || s == 3
    ensures var files := map[2 := Encode(crc, [p, q]), 3 := Frame(crc, r)];
            && (forall i :: 0 <= i < |starts| ==> starts[i] in files)
            && var read := Overlay(FilesRead(crc, files, starts));
               read.Keys == {2, 3} && read[2] == p && read[3] == r
  {
    hide Frames.Encode, Frames.Frame, Frames.Scan, FilesRead, Overlay, Stored;
    var files := map[2 := Encode(crc, [p, q])];
    TwoStored(crc, p, q);
    NewFileOverlay(crc, [Segment(2, [p, q])], files, 3, r, starts);
    assert files[3 := Frame(crc, r)] == map[2 := Encode(crc, [p, q]), 3 := Frame(crc, r)];
    TwoRecords(p, q);
  }

  lemma TwoStored(crc: Checksum, p: Bytes, q: Bytes)
    requires AllFit([p, q])
    ensures Ordered([Segment(2, [p, q])]) && Stored(crc, [Segment(2, [p, q])], map[2 := Encode(crc, [p, q])])
  {
    hide Frames.Encode;
    var segs := [Segment(2, [p, q])];
    assert segs[0].start == 2;
  }

  lemma TwoRecords(p: Bytes, q: Bytes)
    ensures Overlay([Segment(2, [p, q])]).Keys == {2, 3} && Overlay([Segment(2, [p, q])])[2] == p
  {
    var segs := [Segment(2, [p, q])];
    forall k: nat ensures k in Overlay(segs) <==> k == 2 || k == 3 {
      OverlayCovered(segs, k);
      assert Covers(segs[0], k) <==> k == 2 || k == 3;
    }
    OverlayAt(segs, 0, 2);
  }
}
