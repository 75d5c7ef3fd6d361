/**
 The segmented log itself: an append-only log of byte records over segment files, with rotation,
 suffix truncation, prefix purge and torn-tail recovery, refining a plain map from index to record.
 */
module SegmentedLogs {
  import opened Outcome
  import opened Frames
  import opened Segments
  import opened LogIndex
  import opened LogDisk

  /** The segment file that is being appended to, and its length. */
  datatype Active = Active(start: nat, bytes: nat)

  function ActiveOf(crc: Checksum, segs: seq<Segment>): Option<Active>
    requires Ordered(segs)
  {
    if segs == [] then None else Some(Active(Last(segs).start, |Encode(crc, Last(segs).payloads)|))
  }

  // ---------------------------------------------------------------- ordered keys

  method Least(s: set<nat>) returns (k: nat)
    requires s != {}
    ensures k in s && forall j :: j in s ==> k <= j
  {
    k :| k in s;
    var rest := s - {k};
    while rest != {}
      invariant k in s && rest <= s && forall j :: j in s && j !in rest ==> k <= j
      decreases rest
    {
      var j :| j in rest;
      if j < k {
        k := j;
      }
      rest := rest - {j};
    }
  }

  predicate Ascending(ks: seq<nat>) {
    forall i, j :: 0 <= i < j < |ks| ==> ks[i] < ks[j]
  }

  /** The elements of a set in increasing order. */
  method SortedKeys(s: set<nat>) returns (ks: seq<nat>)
    ensures Ascending(ks) && forall k :: k in s <==> k in ks
    ensures forall i :: 0 <= i < |ks| ==> ks[i] in s
  {
    ks := [];
    var rest := s;
    while rest != {}
      invariant rest <= s && Ascending(ks) && forall i :: 0 <= i < |ks| ==> ks[i] in s
      invariant forall k :: k in s <==> k in ks || k in rest
      invariant forall i, j :: 0 <= i < |ks| && j in rest ==> ks[i] < j
      decreases rest
    {
      var k := Least(rest);
      ks := ks + [k];
      rest := rest - {k};
    }
  }

  /** `out` lists exactly the entries of `m` in `[lo, hi)`, by increasing index. */
  ghost predicate Lists(out: seq<(nat, Bytes)>, m: map<nat, Bytes>, lo: nat, hi: nat) {
    && (forall i, j :: 0 <= i < j < |out| ==> out[i].0 < out[j].0)
    && (forall i :: 0 <= i < |out| ==> lo <= out[i].0 < hi && out[i].0 in m && m[out[i].0] == out[i].1)
    && (forall k :: k in m && lo <= k < hi ==> (k, m[k]) in out)
  }

  ghost predicate ListsAll(out: seq<(nat, Bytes)>, m: map<nat, Bytes>) {
    && (forall i, j :: 0 <= i < j < |out| ==> out[i].0 < out[j].0)
    && (forall i :: 0 <= i < |out| ==> out[i].0 in m && m[out[i].0] == out[i].1)
    && (forall k :: k in m ==> (k, m[k]) in out)
  }

  lemma RangeIsAll(out: seq<(nat, Bytes)>, m: map<nat, Bytes>, hi: nat)
    requires Lists(out, m, 0, hi) && forall k :: k in m.Keys ==> k < hi
    ensures ListsAll(out, m)
  {
  }

  lemma SameKeys(crc: Checksum, segs: seq<Segment>, floor: int, records: map<nat, RecordLoc>, contents: map<nat, Bytes>)
    requires Ordered(segs) && IndexOk(crc, segs, floor, records, contents)
    ensures records.Keys == contents.Keys && forall k :: k in contents ==> floor < k
  {
  }

  // ---------------------------------------------------------------- opening

  /** Enters the records of one scanned segment into the index. */
  method EnterAll(crc: Checksum, ghost before: seq<Segment>, start: nat, ghost ps: seq<Bytes>, locs: seq<Loc>,
                  records0: map<nat, RecordLoc>, ghost contents0: map<nat, Bytes>)
    returns (records: map<nat, RecordLoc>, ghost contents: map<nat, Bytes>)
    requires Locates(crc, start, ps, locs)
    ensures EnteredOver(crc, Segment(start, ps), records0, contents0, records, contents)
    ensures Ordered(before) && Ordered(before + [Segment(start, ps)]) && IndexOk(crc, before, -1, records0, contents0) ==>
              IndexOk(crc, before + [Segment(start, ps)], -1, records, contents)
  {
    hide Frames.Encode, Ordered, IndexOk, LocsOver;
    LocsNone(start, ps, locs, records0, contents0);
    ghost var good := Ordered(before) && Ordered(before + [Segment(start, ps)]) && IndexOk(crc, before, -1, records0, contents0);
    records, contents := records0, contents0;
    if good {
      EnterNone(crc, before, start, ps, records, contents);
    }
    for i := 0 to |locs|
      invariant good ==> EnteredTo(crc, before, start, ps, i, records, contents)
      invariant LocsOver(start, ps, locs, i, records0, contents0, records, contents)
    {
      if good {
        EnterOne(crc, before, start, ps, i, records, contents);
      }
      LocsStep(start, ps, locs, i, records0, contents0, records, contents);
      records := records[locs[i].index := RecordLoc(start, locs[i].offset, locs[i].len)];
      contents := contents[start + i := ps[i]];
    }
    assert ps[..|ps|] == ps;
    LocsEntered(crc, start, ps, locs, records0, contents0, records, contents);
  }

  /** The first `i` records of a scanned file have been entered over what was there. */
  ghost predicate LocsOver(start: nat, ps: seq<Bytes>, locs: seq<Loc>, i: nat, records0: map<nat, RecordLoc>, contents0: map<nat, Bytes>,
                           records: map<nat, RecordLoc>, contents: map<nat, Bytes>)
  {
    && i <= |ps| == |locs|
    && (forall k :: k in records <==> k in records0 || start <= k < start + i)
    && (forall k :: k in contents <==> k in contents0 || start <= k < start + i)
    && (forall k :: k in records && start <= k < start + i ==> records[k] == RecordLoc(start, locs[k - start].offset, locs[k - start].len))
    && (forall k :: k in contents && start <= k < start + i ==> contents[k] == ps[k - start])
    && (forall k :: k in records && !(start <= k < start + i) ==> records[k] == records0[k])
    && (forall k :: k in contents && !(start <= k < start + i) ==> contents[k] == contents0[k])
  }

  lemma LocsNone(start: nat, ps: seq<Bytes>, locs: seq<Loc>, records: map<nat, RecordLoc>, contents: map<nat, Bytes>)
    requires |ps| == |locs|
    ensures LocsOver(start, ps, locs, 0, records, contents, records, contents)
  {
  }

  lemma LocsStep(start: nat, ps: seq<Bytes>, locs: seq<Loc>, i: nat, records0: map<nat, RecordLoc>, contents0: map<nat, Bytes>,
                 records: map<nat, RecordLoc>, contents: map<nat, Bytes>)
    requires LocsOver(start, ps, locs, i, records0, contents0, records, contents) && i < |ps|
    ensures LocsOver(start, ps, locs, i + 1, records0, contents0,
                     records[start + i := RecordLoc(start, locs[i].offset, locs[i].len)], contents[start + i := ps[i]])
  {
  }

  /** The records of `g` have been entered over what was there. */
  ghost predicate EnteredOver(crc: Checksum, g: Segment, records0: map<nat, RecordLoc>, contents0: map<nat, Bytes>,
                              records: map<nat, RecordLoc>, contents: map<nat, Bytes>)
  {
    && AllFit(g.payloads) && contents == contents0 + RecordsOf(g)
    && (forall k :: k in records <==> k in records0 || Covers(g, k))
    && (forall k :: k in records ==> records[k] == if Covers(g, k) then LocIn(crc, g, k) else records0[k])
  }

  lemma LocsEntered(crc: Checksum, start: nat, ps: seq<Bytes>, locs: seq<Loc>, records0: map<nat, RecordLoc>, contents0: map<nat, Bytes>,
                    records: map<nat, RecordLoc>, contents: map<nat, Bytes>)
    requires Locates(crc, start, ps, locs) && LocsOver(start, ps, locs, |ps|, records0, contents0, records, contents)
    ensures EnteredOver(crc, Segment(start, ps), records0, contents0, records, contents)
  {
    hide Frames.OffsetOf, Frames.Encode, Locates, LocsOver, LocIn, RecordsOf, PayloadIn, AllFit;
    LocEntered(crc, start, ps, locs, records0, contents0, records, contents, 0);
    LocsContents(crc, start, ps, locs, records0, contents0, records, contents);
    var g := Segment(start, ps);
    assert AllFit(g.payloads);
    forall k: nat
      ensures (k in records <==> k in records0 || Covers(g, k)) && (k in records ==> records[k] == if Covers(g, k) then LocIn(crc, g, k) else records0[k])
    {
      LocEntered(crc, start, ps, locs, records0, contents0, records, contents, k);
    }
  }

  lemma LocsContents(crc: Checksum, start: nat, ps: seq<Bytes>, locs: seq<Loc>, records0: map<nat, RecordLoc>, contents0: map<nat, Bytes>,
                     records: map<nat, RecordLoc>, contents: map<nat, Bytes>)
    requires Locates(crc, start, ps, locs) && LocsOver(start, ps, locs, |ps|, records0, contents0, records, contents)
    ensures contents == contents0 + RecordsOf(Segment(start, ps))
  {
    hide Frames.OffsetOf, Frames.Encode, Locates, LocsOver, LocIn, RecordsOf, PayloadIn;
    var over := contents0 + RecordsOf(Segment(start, ps));
    forall k: nat ensures (k in contents <==> k in over) && (k in over ==> contents[k] == over[k]) {
      LocEntered(crc, start, ps, locs, records0, contents0, records, contents, k);
    }
    assert contents.Keys == over.Keys;
  }

  lemma LocEntered(crc: Checksum, start: nat, ps: seq<Bytes>, locs: seq<Loc>, records0: map<nat, RecordLoc>, contents0: map<nat, Bytes>,
                   records: map<nat, RecordLoc>, contents: map<nat, Bytes>, k: nat)
    requires Locates(crc, start, ps, locs) && LocsOver(start, ps, locs, |ps|, records0, contents0, records, contents)
    ensures AllFit(ps)
    ensures var g := Segment(start, ps);
            && (k in records <==> k in records0 || Covers(g, k)) && (k in contents <==> k in contents0 || Covers(g, k))
            && (k in records ==> records[k] == if Covers(g, k) then LocIn(crc, g, k) else records0[k])
            && (k in contents ==> contents[k] == if Covers(g, k) then PayloadIn(g, k) else contents0[k])
  {
    hide Frames.OffsetOf, Frames.Encode;
  }

  /** A file read and cut after its last whole frame: its records are where the index says. */
  lemma PointsOver(crc: Checksum, g: Segment, files: map<nat, Bytes>, records0: map<nat, RecordLoc>, contents0: map<nat, Bytes>,
                   records: map<nat, RecordLoc>, contents: map<nat, Bytes>)
    requires EnteredOver(crc, g, records0, contents0, records, contents) && Points(files, records0, contents0)
    requires forall k :: k in records0 ==> records0[k].segmentStart != g.start
    ensures Points(files[g.start := Encode(crc, g.payloads)], records, contents)
  {
    hide Frames.OffsetOf, Frames.Encode, LocIn, Holding;
    assert records.Keys == contents.Keys;
    forall k | k in records
      ensures var loc, files1 := records[k], files[g.start := Encode(crc, g.payloads)];
              loc.segmentStart in files1 && Holding(files1[loc.segmentStart], loc, contents[k])
    {
      if Covers(g, k) {
        LocReads(crc, g, k);
      }
    }
  }

  /** The index holds the earlier segments and the first `i` records of this one. */
  ghost predicate EnteredTo(crc: Checksum, before: seq<Segment>, start: nat, ps: seq<Bytes>, i: nat,
                            records: map<nat, RecordLoc>, contents: map<nat, Bytes>)
  {
    && i <= |ps| && Ordered(before + [Segment(start, ps[..i])])
    && IndexOk(crc, before + [Segment(start, ps[..i])], -1, records, contents)
  }

  lemma PrefixOrdered(before: seq<Segment>, start: nat, ps: seq<Bytes>, i: nat)
    requires Ordered(before + [Segment(start, ps)]) && i <= |ps|
    ensures Ordered(before + [Segment(start, ps[..i])])
  {
    var segs := before + [Segment(start, ps)];
    ShortenLast(segs, ps[..i]);
    assert segs[..|segs| - 1] == before;
  }

  lemma EnterNone(crc: Checksum, before: seq<Segment>, start: nat, ps: seq<Bytes>,
                  records: map<nat, RecordLoc>, contents: map<nat, Bytes>)
    requires Ordered(before) && Ordered(before + [Segment(start, ps)]) && IndexOk(crc, before, -1, records, contents)
    ensures EnteredTo(crc, before, start, ps, 0, records, contents)
  {
    PrefixOrdered(before, start, ps, 0);
    hide Frames.Encode, Ordered, IndexOk;
    assert ps[..0] == [];
    IndexPushed(crc, before, -1, records, contents, start);
  }

  lemma EnterOne(crc: Checksum, before: seq<Segment>, start: nat, ps: seq<Bytes>, i: nat,
                 records: map<nat, RecordLoc>, contents: map<nat, Bytes>)
    requires Ordered(before + [Segment(start, ps)]) && EnteredTo(crc, before, start, ps, i, records, contents) && i < |ps| && AllFit(ps)
    ensures EnteredTo(crc, before, start, ps, i + 1,
                      records[start + i := RecordLoc(start, OffsetOf(crc, ps, i) + HEADER_BYTES, |ps[i]|)], contents[start + i := ps[i]])
  {
    hide Frames.Encode, Ordered, IndexOk;
    PrefixOrdered(before, start, ps, i + 1);
    GrownPrefix(before, start, ps, i);
    IndexGrown(crc, before + [Segment(start, ps[..i])], -1, records, contents, ps[i]);
  }

  lemma GrownPrefix(before: seq<Segment>, start: nat, ps: seq<Bytes>, i: nat)
    requires i < |ps|
    ensures var segs := before + [Segment(start, ps[..i])];
            WithLast(segs, Grown(Last(segs), ps[i])) == before + [Segment(start, ps[..i + 1])]
  {
    assert ps[..i] + [ps[i]] == ps[..i + 1];
  }

  /**
   The first `i` files have been read and each cut after its last whole frame, durably; the others
   are untouched.
   */
  ghost predicate FilesTo(crc: Checksum, read: seq<Segment>, disk: map<nat, Bytes>, i: nat, files: map<nat, Bytes>, durable: map<nat, nat>) {
    && Ordered(read) && i <= |read| && files.Keys == disk.Keys
    && (forall j :: 0 <= j < |read| ==> read[j].start in files)
    && (forall j :: 0 <= j < i ==> files[read[j].start] == Encode(crc, read[j].payloads) && read[j].start in durable)
    && (forall j :: i <= j < |read| ==> files[read[j].start] == disk[read[j].start])
    && (forall s :: s in durable ==> s in files && durable[s] == |files[s]|)
  }

  /** The index holds the records of the first `i` segments. */
  ghost predicate IndexTo(crc: Checksum, read: seq<Segment>, i: nat, records: map<nat, RecordLoc>, contents: map<nat, Bytes>) {
    i <= |read| && Ordered(read[..i]) && IndexOk(crc, read[..i], -1, records, contents)
  }

  lemma FilesStep(crc: Checksum, read: seq<Segment>, disk: map<nat, Bytes>, i: nat, files: map<nat, Bytes>, durable: map<nat, nat>)
    requires Ordered(read) && i < |read| && FilesTo(crc, read, disk, i, files, durable)
    ensures var file := Encode(crc, read[i].payloads);
            FilesTo(crc, read, disk, i + 1, files[read[i].start := file], durable[read[i].start := |file|])
  {
    assert AllFit(read[i].payloads) && forall j :: 0 <= j < |read| && j != i ==> read[j].start != read[i].start;
    hide Frames.Encode, Ordered;
  }

  lemma IndexStep(crc: Checksum, read: seq<Segment>, i: nat, records: map<nat, RecordLoc>, contents: map<nat, Bytes>)
    requires Ordered(read) && i < |read|
    requires Ordered(read[..i] + [read[i]]) ==> IndexOk(crc, read[..i] + [read[i]], -1, records, contents)
    ensures IndexTo(crc, read, i + 1, records, contents)
  {
    hide IndexOk, Ordered;
    assert read[..i] + [read[i]] == read[..i + 1];
    SlicedOrdered(read, 0, i + 1);
    assert read[0..i + 1] == read[..i + 1];
  }

  /** The directory held the segments `was`; a crash cut at most its last file. */
  predicate Recoverable(crc: Checksum, was: seq<Segment>, disk: map<nat, Bytes>) {
    Ordered(was) && CutShort(crc, was, disk)
  }

  function ReadBack(crc: Checksum, was: seq<Segment>, disk: map<nat, Bytes>): seq<Segment> {
    if Recoverable(crc, was, disk) then Recovered(crc, was, disk) else []
  }

  /** The segments read back, in terms of those written. */
  lemma RecoveredOrdered(crc: Checksum, was: seq<Segment>, disk: map<nat, Bytes>)
    requires Recoverable(crc, was, disk)
    ensures var read := ReadBack(crc, was, disk);
            && Ordered(read) && (GapFree(was) ==> GapFree(read)) && Named(read, disk) && StartsOf(read) == StartsOf(was)
  {
    if was != [] {
      var last := was[|was| - 1];
      hide Frames.Encode, Frames.Scan, GapFree;
      TornSegment(crc, last, 0, disk[last.start]);
      hide Ordered, Named;
      ShortenLast(was, Scan(crc, disk[last.start]));
      SameStarts(was, Segment(last.start, Scan(crc, disk[last.start])), disk);
    }
  }

  lemma SameStarts(segs: seq<Segment>, g: Segment, files: map<nat, Bytes>)
    requires segs != [] && g.start == Last(segs).start && Named(segs, files)
    ensures var segs1 := WithLast(segs, g);
            (GapFree(segs) ==> GapFree(segs1)) && Named(segs1, files) && StartsOf(segs1) == StartsOf(segs)
  {
    var segs1 := WithLast(segs, g);
    assert forall i :: 0 <= i < |segs| - 1 ==> segs1[i] == segs[i];
    assert forall i :: 0 <= i < |segs| ==> segs1[i].start == segs[i].start;
  }

  lemma OpenStart(crc: Checksum, was: seq<Segment>, disk: map<nat, Bytes>, starts: seq<nat>)
    requires Recoverable(crc, was, disk) && Ascending(starts) && forall s :: s in disk <==> s in starts
    ensures var read := ReadBack(crc, was, disk);
            && starts == StartsOf(read) && |read| == |was| == |starts|
            && OpenedTo(crc, was, disk, 0, disk, map[], map[], map[])
  {
    hide Frames.Encode, Frames.Scan, GapFree, ReadBack;
    RecoveredOrdered(crc, was, disk);
    StartsSorted(was, disk, starts);
    hide CutShort;
    OpenNothing(crc, ReadBack(crc, was, disk), disk);
  }

  lemma OpenNothing(crc: Checksum, read: seq<Segment>, disk: map<nat, Bytes>)
    requires Ordered(read) && Named(read, disk)
    ensures FilesTo(crc, read, disk, 0, disk, map[]) && IndexTo(crc, read, 0, map[], map[])
  {
    assert read[..0] == [];
  }

  /** File `i` is still as it was found, and reads back as segment `i`. */
  lemma OpenRead(crc: Checksum, was: seq<Segment>, disk: map<nat, Bytes>, i: nat, files: map<nat, Bytes>, durable: map<nat, nat>)
    requires Recoverable(crc, was, disk) && i < |ReadBack(crc, was, disk)|
    requires FilesTo(crc, ReadBack(crc, was, disk), disk, i, files, durable)
    ensures var g := ReadBack(crc, was, disk)[i];
            && g.start in files && g.payloads == Scan(crc, files[g.start])
            && (Torn(crc, files[g.start]) ==> i + 1 == |ReadBack(crc, was, disk)|)
  {
    hide Frames.Encode, Frames.Scan, Named;
    ReadSegment(crc, was, disk, i);
  }

  /** Reading one more file, and cutting it after its last whole frame. */
  lemma OpenStep(crc: Checksum, read: seq<Segment>, disk: map<nat, Bytes>, i: nat, files: map<nat, Bytes>, durable: map<nat, nat>,
                 valid: nat, records: map<nat, RecordLoc>, contents: map<nat, Bytes>)
    requires i < |read| && FilesTo(crc, read, disk, i, files, durable) && read[i].start in files
    requires var bytes, g := files[read[i].start], read[i];
             && g.payloads == Scan(crc, bytes) && valid == |Encode(crc, g.payloads)| <= |bytes|
             && (Ordered(read[..i] + [g]) ==> IndexOk(crc, read[..i] + [g], -1, records, contents))
    ensures var start := read[i].start;
            && FilesTo(crc, read, disk, i + 1, files[start := files[start][..valid]], durable[start := valid])
            && IndexTo(crc, read, i + 1, records, contents)
  {
    hide Frames.Encode, Frames.Scan, IndexOk, Ordered;
    var bytes := files[read[i].start];
    ScanReencodes(crc, bytes);
    assert bytes[..valid] == Encode(crc, read[i].payloads);
    FilesStep(crc, read, disk, i, files, durable);
    IndexStep(crc, read, i, records, contents);
  }

  /** The index holds the segments, and the files hold them durably. */
  ghost predicate IsOpen(crc: Checksum, read: seq<Segment>, files: map<nat, Bytes>, durable: map<nat, nat>,
                         records: map<nat, RecordLoc>, contents: map<nat, Bytes>)
  {
    && DiskOk(crc, read, files, durable) && IndexOk(crc, read, -1, records, contents)
    && AllDurable(files, durable)
  }

  lemma OpenEnd(crc: Checksum, was: seq<Segment>, disk: map<nat, Bytes>, files: map<nat, Bytes>, durable: map<nat, nat>,
                records: map<nat, RecordLoc>, contents: map<nat, Bytes>)
    requires Recoverable(crc, was, disk)
    requires OpenedTo(crc, was, disk, |ReadBack(crc, was, disk)|, files, durable, records, contents)
    ensures IsOpen(crc, ReadBack(crc, was, disk), files, durable, records, contents)
    ensures GapFree(was) ==> GapFree(ReadBack(crc, was, disk))
    ensures var last := ActiveOf(crc, ReadBack(crc, was, disk));
            last.Some? ==> last.value.start in files && |files[last.value.start]| == last.value.bytes
  {
    hide Frames.Encode, Frames.Scan, IndexOk, Ordered, GapFree, Named, Stored, Recoverable, ReadBack, FilesTo;
    RecoveredOrdered(crc, was, disk);
    var read := ReadBack(crc, was, disk);
    assert read[..|read|] == read;
    FilesAll(crc, read, disk, files, durable);
  }

  lemma FilesAll(crc: Checksum, read: seq<Segment>, disk: map<nat, Bytes>, files: map<nat, Bytes>, durable: map<nat, nat>)
    requires Ordered(read) && Named(read, disk) && FilesTo(crc, read, disk, |read|, files, durable)
    ensures Stored(crc, read, files) && Synced(read, files, durable) && AllDurable(files, durable)
    ensures read != [] ==> Last(read).start in files && files[Last(read).start] == Encode(crc, Last(read).payloads)
  {
    hide Frames.Encode, Ordered;
    forall s | s in files ensures s in durable {
      var i :| 0 <= i < |read| && read[i].start == s;
    }
  }

  /** The starts are in order and the active segment is the last. */
  predicate Shaped(starts: seq<nat>, active: Option<Active>) {
    Ascending(starts) && (starts != [] ==> active.Some? && active.value.start == starts[|starts| - 1])
  }

  /** Truncating the starts after a torn file leaves that file as the active one. */
  lemma OpenShape(starts: seq<nat>, i: nat, active: Option<Active>)
    requires Ascending(starts) && i <= |starts|
    requires i > 0 ==> active.Some? && active.value.start == starts[i - 1]
    ensures Shaped(starts[..i], active) && (i == |starts| ==> starts[..i] == starts)
  {
  }

  /** The first `i` segments of the directory have been read, cut and indexed. */
  ghost predicate OpenedTo(crc: Checksum, was: seq<Segment>, disk: map<nat, Bytes>, i: nat, files: map<nat, Bytes>,
                           durable: map<nat, nat>, records: map<nat, RecordLoc>, contents: map<nat, Bytes>)
  {
    && Recoverable(crc, was, disk) && FilesTo(crc, ReadBack(crc, was, disk), disk, i, files, durable)
    && IndexTo(crc, ReadBack(crc, was, disk), i, records, contents)
  }

  /** The segments the files of a directory hold, as far as they can be read. */
  function FilesRead(crc: Checksum, disk: map<nat, Bytes>, starts: seq<nat>): (read: seq<Segment>)
    requires forall i :: 0 <= i < |starts| ==> starts[i] in disk
    ensures |read| == |starts| && forall i :: 0 <= i < |starts| ==> read[i] == Segment(starts[i], Scan(crc, disk[starts[i]]))
  {
    seq(|starts|, i requires 0 <= i < |starts| => Segment(starts[i], Scan(crc, disk[starts[i]])))
  }

  /** The first `count` files have been read: the index points at exactly what they hold, the later file winning. */
  ghost predicate ScannedTo(crc: Checksum, disk: map<nat, Bytes>, starts: seq<nat>, count: nat,
                            files: map<nat, Bytes>, records: map<nat, RecordLoc>, contents: map<nat, Bytes>)
    requires count <= |starts| && forall i :: 0 <= i < |starts| ==> starts[i] in disk
  {
    && files.Keys == disk.Keys && Points(files, records, contents) && contents == Overlay(FilesRead(crc, disk, starts[..count]))
    && (forall k :: k in records ==> exists i :: 0 <= i < count && starts[i] == records[k].segmentStart)
    && (forall i :: count <= i < |starts| ==> files[starts[i]] == disk[starts[i]])
  }

  lemma ScanStep(crc: Checksum, disk: map<nat, Bytes>, starts: seq<nat>, count: nat, files: map<nat, Bytes>,
                 records: map<nat, RecordLoc>, contents: map<nat, Bytes>, valid: nat, records1: map<nat, RecordLoc>, contents1: map<nat, Bytes>)
    requires Ascending(starts) && count < |starts| && forall i :: 0 <= i < |starts| ==> starts[i] in disk
    requires ScannedTo(crc, disk, starts, count, files, records, contents)
    requires var g := Segment(starts[count], Scan(crc, disk[starts[count]]));
             valid == |Encode(crc, g.payloads)| <= |disk[starts[count]]| && EnteredOver(crc, g, records, contents, records1, contents1)
    ensures ScannedTo(crc, disk, starts, count + 1, files[starts[count] := files[starts[count]][..valid]], records1, contents1)
  {
    hide Frames.Encode, Frames.Scan, Frames.OffsetOf, LocIn, EnteredOver, Points, RecordsOf;
    var g := Segment(starts[count], Scan(crc, disk[starts[count]]));
    ScanReencodes(crc, disk[starts[count]]);
    assert files[starts[count]][..valid] == Encode(crc, g.payloads);
    PointsOver(crc, g, files, records, contents, records1, contents1);
    var more := FilesRead(crc, disk, starts[..count + 1]);
    assert more[..count] == FilesRead(crc, disk, starts[..count]) && more[count] == g;
    EnteredStarts(crc, g, records, contents, records1, contents1);
  }

  lemma EnteredStarts(crc: Checksum, g: Segment, records0: map<nat, RecordLoc>, contents0: map<nat, Bytes>,
                      records: map<nat, RecordLoc>, contents: map<nat, Bytes>)
    requires EnteredOver(crc, g, records0, contents0, records, contents)
    ensures contents == contents0 + RecordsOf(g)
    ensures forall k :: k in records ==> records[k].segmentStart == g.start || (k in records0 && records[k] == records0[k])
  {
  }

  /** Reads one segment file into the index, and cuts it after its last whole frame. */
  method ReadOne(crc: Checksum, ghost was: seq<Segment>, ghost disk: map<nat, Bytes>, ghost i: nat, start: nat,
                 files: map<nat, Bytes>, ghost durable: map<nat, nat>, records: map<nat, RecordLoc>, ghost contents: map<nat, Bytes>)
    returns (valid: nat, records1: map<nat, RecordLoc>, ghost contents1: map<nat, Bytes>)
    requires start in files
    ensures valid == |Encode(crc, Scan(crc, files[start]))| <= |files[start]|
    ensures EnteredOver(crc, Segment(start, Scan(crc, files[start])), records, contents, records1, contents1)
    ensures OpenedTo(crc, was, disk, i, files, durable, records, contents) &&
            i < |ReadBack(crc, was, disk)| && ReadBack(crc, was, disk)[i].start == start ==>
              && OpenedTo(crc, was, disk, i + 1, files[start := files[start][..valid]], durable[start := valid], records1, contents1)
              && (valid < |files[start]| ==> i + 1 == |ReadBack(crc, was, disk)|)
  {
    hide Frames.Encode, Frames.Scan, Ordered, Recoverable, ReadBack, IndexOk, Locates, FilesTo, EnteredOver;
    ghost var read := ReadBack(crc, was, disk);
    ghost var good := OpenedTo(crc, was, disk, i, files, durable, records, contents) && i < |read| && read[i].start == start;
    var locs;
    locs, valid := ScanSegment(crc, start, files[start]);
    if good {
      OpenRead(crc, was, disk, i, files, durable);
      assert read[i] == Segment(start, Scan(crc, files[start]));
    }
    records1, contents1 := EnterAll(crc, if good then read[..i] else [], start, Scan(crc, files[start]), locs, records, contents);
    if good {
      OpenStep(crc, read, disk, i, files, durable, valid, records1, contents1);
    }
  }

  /** Only the last of the files read may be damaged; all were read unless it is. */
  predicate StopsAt(crc: Checksum, disk: map<nat, Bytes>, starts: seq<nat>, count: nat)
    requires count <= |starts| && forall i :: 0 <= i < |starts| ==> starts[i] in disk
  {
    && (forall i :: 0 <= i < count - 1 ==> !Torn(crc, disk[starts[i]]))
    && (count < |starts| ==> 0 < count && Torn(crc, disk[starts[count - 1]]))
  }

  lemma ScanNone(crc: Checksum, disk: map<nat, Bytes>, starts: seq<nat>)
    requires forall i :: 0 <= i < |starts| ==> starts[i] in disk
    ensures ScannedTo(crc, disk, starts, 0, disk, map[], map[])
  {
    assert FilesRead(crc, disk, starts[..0]) == [];
  }

  lemma StillAsFound(crc: Checksum, disk: map<nat, Bytes>, starts: seq<nat>, count: nat,
                     files: map<nat, Bytes>, records: map<nat, RecordLoc>, contents: map<nat, Bytes>)
    requires count < |starts| && (forall i :: 0 <= i < |starts| ==> starts[i] in disk)
    requires ScannedTo(crc, disk, starts, count, files, records, contents)
    ensures files[starts[count]] == disk[starts[count]]
  {
  }

  /** Reads the listed files in order, stopping after the first damaged one; `count` were read. */
  method ScanFiles(crc: Checksum, disk: map<nat, Bytes>, starts: seq<nat>, ghost was: seq<Segment>)
    returns (count: nat, files: map<nat, Bytes>, ghost durable: map<nat, nat>,
             records: map<nat, RecordLoc>, ghost contents: map<nat, Bytes>, active: Option<Active>)
    requires Ascending(starts) && forall j :: 0 <= j < |starts| ==> starts[j] in disk
    ensures count <= |starts| && files.Keys == disk.Keys && (count == 0 ==> starts == [])
    ensures ScannedTo(crc, disk, starts, count, files, records, contents) && StopsAt(crc, disk, starts, count)
    ensures active == if count > 0 then Some(Active(starts[count - 1], |files[starts[count - 1]]|)) else None
    ensures OpenedTo(crc, was, disk, 0, disk, map[], map[], map[]) && starts == StartsOf(ReadBack(crc, was, disk)) ==>
              count == |starts| && OpenedTo(crc, was, disk, count, files, durable, records, contents)
  {
    hide Frames.Encode, Frames.Scan, OpenedTo, ReadBack, StartsOf, ScannedTo, EnteredOver, Ascending;
    ScanNone(crc, disk, starts);
    ghost var good := OpenedTo(crc, was, disk, 0, disk, map[], map[], map[]) && starts == StartsOf(ReadBack(crc, was, disk));
    count, files, durable, records, contents, active := 0, disk, map[], map[], map[], None;
    while count < |starts|
      invariant count <= |starts| && files.Keys == disk.Keys && active.Some? == (count > 0)
      invariant count > 0 ==> active.value == Active(starts[count - 1], |files[starts[count - 1]]|)
      invariant good ==> OpenedTo(crc, was, disk, count, files, durable, records, contents)
      invariant ScannedTo(crc, disk, starts, count, files, records, contents)
      invariant forall i :: 0 <= i < count ==> !Torn(crc, disk[starts[i]])
    {
      var start, valid := starts[count], 0;
      var bytes := files[start];
      ghost var records0, contents0 := records, contents;
      StillAsFound(crc, disk, starts, count, files, records, contents);
      valid, records, contents := ReadOne(crc, was, disk, count, start, files, durable, records, contents);
      ScanStep(crc, disk, starts, count, files, records0, contents0, valid, records, contents);
      files, durable := files[start := bytes[..valid]], durable[start := valid];
      active, count := Some(Active(start, valid)), count + 1;
      if valid < |bytes| {
        break;
      }
    }
  }

  /** `starts` lists the files up to the first damaged one. */
  predicate ReadAsFar(crc: Checksum, disk: map<nat, Bytes>, starts: seq<nat>) {
    && Ascending(starts) && (forall i :: 0 <= i < |starts| ==> starts[i] in disk)
    && (forall i :: 0 <= i < |starts| - 1 ==> !Torn(crc, disk[starts[i]]))
    && forall s :: s in disk ==> s in starts || (starts != [] && starts[|starts| - 1] < s && Torn(crc, disk[starts[|starts| - 1]]))
  }

  lemma ReadPrefix(crc: Checksum, disk: map<nat, Bytes>, starts: seq<nat>, count: nat)
    requires Ascending(starts) && count <= |starts| && (forall i :: 0 <= i < |starts| ==> starts[i] in disk) && (forall s :: s in disk ==> s in starts)
    requires StopsAt(crc, disk, starts, count)
    ensures ReadAsFar(crc, disk, starts[..count])
  {
    hide Torn;
    var read := starts[..count];
    forall s | s in disk ensures s in read || (read != [] && read[|read| - 1] < s && Torn(crc, disk[read[|read| - 1]])) {
      var i :| 0 <= i < |starts| && starts[i] == s;
      if i < count {
        assert read[i] == s;
      } else {
        assert read[count - 1] == starts[count - 1] < s;
      }
    }
  }

  /**
   Reads the segment files in order up to the first damaged one, and cuts that one after its last
   whole frame. The index then points at exactly what the files hold, the later file winning where two
   claim the same index.
   */
  method ReadFiles(crc: Checksum, disk: map<nat, Bytes>, ghost was: seq<Segment>)
    returns (files: map<nat, Bytes>, ghost durable: map<nat, nat>, starts: seq<nat>,
             records: map<nat, RecordLoc>, ghost contents: map<nat, Bytes>, active: Option<Active>)
    ensures files.Keys == disk.Keys && Shaped(starts, active) && (starts == [] ==> active.None?)
    ensures active.Some? ==> active.value.start in files && active.value.bytes == |files[active.value.start]|
    ensures ReadAsFar(crc, disk, starts) && Points(files, records, contents) && contents == Overlay(FilesRead(crc, disk, starts))
    ensures Recoverable(crc, was, disk) ==>
              var read := ReadBack(crc, was, disk);
              && IsOpen(crc, read, files, durable, records, contents) && (GapFree(was) ==> GapFree(read))
              && starts == StartsOf(read) && active == ActiveOf(crc, read)
  {
    hide Frames.Encode, Ordered, GapFree, Stored, Synced, Recoverable, ReadBack, IndexOk, StartsOf, Ascending, Shaped, OpenedTo, Points, ReadAsFar;
    starts := SortedKeys(disk.Keys);
    if Recoverable(crc, was, disk) {
      OpenStart(crc, was, disk, starts);
    }
    var count;
    count, files, durable, records, contents, active := ScanFiles(crc, disk, starts, was);
    OpenShape(starts, count, active);
    ReadPrefix(crc, disk, starts, count);
    starts := starts[..count];
    if Recoverable(crc, was, disk) {
      OpenEnd(crc, was, disk, files, durable, records, contents);
    }
  }

  // ---------------------------------------------------------------- purge

  /** Segment `i` may be deleted by a purge through `index`: it is not the last, and the next one starts at most one above. */
  predicate Deletable(starts: seq<nat>, i: nat, index: nat) {
    i + 1 < |starts| && starts[i + 1] <= index + 1
  }

  /** The deletable segments are the first `d`. */
  predicate PurgePoint(segs: seq<Segment>, index: nat, d: nat) {
    && d <= |segs| && (segs != [] ==> d < |segs|)
    && forall i :: 0 <= i < |segs| ==> (i < d <==> i < |segs| - 1 && segs[i].End() <= index + 1)
  }

  lemma PurgePointExists(segs: seq<Segment>, index: nat) returns (d: nat)
    requires Ordered(segs)
    ensures PurgePoint(segs, index, d)
  {
    d := 0;
    while d < |segs| - 1 && segs[d].End() <= index + 1
      invariant d <= |segs| && (segs != [] ==> d < |segs|)
      invariant forall i :: 0 <= i < d ==> segs[i].End() <= index + 1
    {
      d := d + 1;
    }
    forall i | d < i < |segs| - 1 ensures segs[i].End() > index + 1 {
      assert segs[d].End() <= segs[i].start;
    }
  }

  /** Deletability, read off the starts, is the segment lying at or below the floor. */
  lemma DeletableIff(segs: seq<Segment>, index: nat, d: nat, i: nat)
    requires Ordered(segs) && GapFree(segs) && PurgePoint(segs, index, d) && i < |segs|
    ensures Deletable(StartsOf(segs), i, index) <==> i < d
  {
    var j := i + 1;
    assert j < |segs| ==> segs[i].End() == segs[j].start;
  }

  /** A segment still has an indexed record exactly when it reaches above the floor. */
  lemma HasRecordIff(crc: Checksum, segs: seq<Segment>, floor: int, records: map<nat, RecordLoc>, contents: map<nat, Bytes>, index: nat, i: nat)
    requires Ordered(segs) && IndexOk(crc, segs, floor, records, contents) && floor <= index && i < |segs|
    requires segs[i].payloads != []
    ensures HasRecord(Above(records, index), segs[i].start) <==> index + 1 < segs[i].End()
  {
    hide Frames.Encode, Frames.OffsetOf, PayloadIn;
    var above := Above(records, index);
    if index + 1 < segs[i].End() {
      var k := segs[i].End() - 1;
      assert Covers(segs[i], k);
      assert k in above && above[k].segmentStart == segs[i].start;
    }
    if HasRecord(above, segs[i].start) {
      var k :| k in above && above[k].segmentStart == segs[i].start;
      assert Covered(segs, k);
      var j :| 0 <= j < |segs| && Covers(segs[j], k);
      assert Entered(crc, segs[j], k, records, contents);
      assert segs[j].start == segs[i].start;
      assert i == j;
    }
  }

  lemma StartsAscend(crc: Checksum, segs: seq<Segment>)
    requires Ordered(segs)
    ensures Ascending(StartsOf(segs))
    ensures segs != [] ==> ActiveOf(crc, segs).Some? && ActiveOf(crc, segs).value.start == StartsOf(segs)[|segs| - 1]
  {
  }

  /** A start is retained exactly when its segment was not deleted. */
  lemma RetainedStarts(crc: Checksum, segs: seq<Segment>, floor: int, records: map<nat, RecordLoc>,
                       contents: map<nat, Bytes>, index: nat, d: nat, starts: seq<nat>)
    requires Ordered(segs) && GapFree(segs) && IndexOk(crc, segs, floor, records, contents) && floor <= index && PurgePoint(segs, index, d)
    requires Ascending(starts)
    requires forall s :: s in starts <==> s in StartsOf(segs) && ((segs != [] && Last(segs).start == s) || HasRecord(Above(records, index), s))
    ensures starts == StartsOf(segs[d..])
  {
    hide Frames.Encode, IndexOk, HasRecord, Above, GapFree;
    var all, rest := StartsOf(segs), StartsOf(segs[d..]);
    forall s ensures s in starts <==> s in rest {
      if i :| 0 <= i < |segs| && all[i] == s {
        if i < |segs| - 1 {
          OnlyLastEmpty(segs, i);
          HasRecordIff(crc, segs, floor, records, contents, index, i);
        }
        if d <= i {
          assert rest[i - d] == s;
        }
      }
    }
    SortedUnique(starts, rest);
  }

  lemma PurgedOutside(segs: seq<Segment>, index: nat, d: nat, gone: set<nat>)
    requires Ordered(segs) && GapFree(segs) && PurgePoint(segs, index, d)
    requires forall i :: 0 <= i < |segs| ==> (StartsOf(segs)[i] in gone <==> Deletable(StartsOf(segs), i, index))
    ensures Outside(segs, gone, d, |segs|)
  {
    hide Deletable;
    forall i | 0 <= i < |segs| ensures segs[i].start in gone <==> i < d {
      DeletableIff(segs, index, d, i);
      assert StartsOf(segs)[i] == segs[i].start;
    }
  }

  /** All of a purge: the files, the index and the active segment agree again. */
  lemma PurgeOk(crc: Checksum, segs: seq<Segment>, files: map<nat, Bytes>, durable: map<nat, nat>, floor: int,
                records: map<nat, RecordLoc>, contents: map<nat, Bytes>, index: nat, d: nat, gone: set<nat>, starts: seq<nat>)
    requires DiskOk(crc, segs, files, durable) && GapFree(segs) && IndexOk(crc, segs, floor, records, contents)
    requires floor <= index && PurgePoint(segs, index, d) && Ascending(starts)
    requires forall i :: 0 <= i < |segs| ==> (StartsOf(segs)[i] in gone <==> Deletable(StartsOf(segs), i, index))
    requires forall s :: s in starts <==> s in StartsOf(segs) && ((segs != [] && Last(segs).start == s) || HasRecord(Above(records, index), s))
    ensures DiskOk(crc, segs[d..], files - gone, durable - gone) && GapFree(segs[d..])
    ensures IndexOk(crc, segs[d..], index, Above(records, index), Above(contents, index))
    ensures starts == StartsOf(segs[d..]) && ActiveOf(crc, segs[d..]) == ActiveOf(crc, segs)
  {
    hide Frames.Encode, Ordered, GapFree, Stored, Synced, IndexOk, StartsOf, Above, Deletable, HasRecord, Outside;
    PurgedOutside(segs, index, d, gone);
    DiskSliced(crc, segs, files, durable, gone, d, |segs|);
    SlicedGapFree(segs, d, |segs|);
    assert segs[d..|segs|] == segs[d..];
    assert forall i :: 0 <= i < d ==> segs[i].End() <= index + 1;
    hide PurgePoint;
    IndexPurged(crc, segs, floor, records, contents, index, d);
    RetainedStarts(crc, segs, floor, records, contents, index, d, starts);
  }

  predicate HasRecord(records: map<nat, RecordLoc>, start: nat) {
    exists k :: k in records && records[k].segmentStart == start
  }

  // ---------------------------------------------------------------- truncation

  lemma SplitExists(segs: seq<Segment>, index: nat) returns (m: nat)
    requires Ordered(segs)
    ensures Splits(segs, index, m)
  {
    m := 0;
    while m < |segs| && segs[m].start < index
      invariant m <= |segs| && forall i :: 0 <= i < m ==> segs[i].start < index
    {
      m := m + 1;
    }
  }

  /** The starts below an index, and the set of the others. */
  method Divide(starts: seq<nat>, index: nat) returns (kept: seq<nat>, gone: set<nat>)
    ensures forall s :: s in gone <==> s in starts && index <= s
    ensures Ascending(starts) ==> Ascending(kept)
    ensures forall s :: s in kept <==> s in starts && s < index
  {
    kept, gone := [], {};
    for i := 0 to |starts|
      invariant forall s :: s in gone <==> s in starts[..i] && index <= s
      invariant forall s :: s in kept <==> s in starts[..i] && s < index
      invariant Ascending(starts) ==> Ascending(kept)
    {
      assert starts[..i + 1] == starts[..i] + [starts[i]];
      if index <= starts[i] {
        gone := gone + {starts[i]};
      } else {
        assert Ascending(starts) ==> forall s :: s in starts[..i] ==> s < starts[i];
        assert forall j :: 0 <= j < |kept| ==> kept[j] in starts[..i];
        kept := kept + [starts[i]];
      }
    }
    assert starts[..|starts|] == starts;
  }

  /** Dividing the starts of ordered segments cuts them in two. */
  lemma SplitStarts(segs: seq<Segment>, index: nat, m: nat, kept: seq<nat>, gone: set<nat>)
    requires Ordered(segs) && Splits(segs, index, m)
    requires Ascending(StartsOf(segs)) ==> Ascending(kept)
    requires forall s :: s in gone <==> s in StartsOf(segs) && index <= s
    requires forall s :: s in kept <==> s in StartsOf(segs) && s < index
    ensures Outside(segs, gone, 0, m) && kept == StartsOf(Truncated(segs, index, m))
    ensures forall s :: s in kept ==> s in StartsOf(segs) && s !in gone
  {
    var starts := StartsOf(segs);
    var first := StartsOf(Truncated(segs, index, m));
    assert forall i :: 0 <= i < |segs| ==> starts[i] in starts;
    assert forall i :: 0 <= i < m ==> first[i] == starts[i];
    forall s ensures s in first <==> s in kept {
      if s in kept {
        var i :| 0 <= i < |starts| && starts[i] == s;
        assert first[i] == s;
      }
    }
    SortedUnique(kept, first);
  }

  lemma StartsInFiles(crc: Checksum, segs: seq<Segment>, files: map<nat, Bytes>, durable: map<nat, nat>)
    requires DiskOk(crc, segs, files, durable)
    ensures forall s :: s in StartsOf(segs) ==> s in files
  {
  }

  lemma PastHeader(crc: Checksum, segs: seq<Segment>, floor: int, records: map<nat, RecordLoc>, contents: map<nat, Bytes>, k: nat)
    requires Ordered(segs) && IndexOk(crc, segs, floor, records, contents) && k in records
    ensures records[k].payloadOffset >= HEADER_BYTES
  {
    hide Frames.Encode, PayloadIn;
    assert Covered(segs, k);
    var i :| 0 <= i < |segs| && Covers(segs[i], k);
    assert Entered(crc, segs[i], k, records, contents);
  }

  /** The directory once the segment holding `index` has been cut before it. */
  ghost predicate CutFiles(files: map<nat, Bytes>, durable: map<nat, nat>, records: map<nat, RecordLoc>, index: nat,
                           files1: map<nat, Bytes>, durable1: map<nat, nat>)
  {
    if index in records && records[index].segmentStart < index then
      var start, at := records[index].segmentStart, records[index].payloadOffset - HEADER_BYTES;
      && start in files && 0 <= at <= |files[start]|
      && files1 == files[start := files[start][..at]] && durable1 == durable[start := at]
    else
      files1 == files && durable1 == durable
  }

  /** Without a record at the index nothing is cut: exactly the files named below it stay, as they were. */
  ghost predicate OnlyBelow(files: map<nat, Bytes>, index: nat, files1: map<nat, Bytes>) {
    (forall s :: s in files1 <==> s in files && s < index) && forall s :: s in files1 ==> files1[s] == files[s]
  }

  lemma UncutFiles(crc: Checksum, segs: seq<Segment>, files: map<nat, Bytes>, durable: map<nat, nat>, floor: int,
                   records: map<nat, RecordLoc>, contents: map<nat, Bytes>, index: nat, gone: set<nat>,
                   files1: map<nat, Bytes>, durable1: map<nat, nat>)
    requires DiskOk(crc, segs, files, durable) && IndexOk(crc, segs, floor, records, contents) && index <= floor
    requires CutFiles(files, durable, records, index, files1, durable1)
    requires forall s :: s in gone <==> s in StartsOf(segs) && index <= s
    ensures OnlyBelow(files, index, files1 - gone) && files1 == files && durable1 == durable && Below(records, index).Keys == {}
  {
    hide Frames.Encode;
    SameKeys(crc, segs, floor, records, contents);
    hide IndexOk;
    forall s | s in files ensures s in StartsOf(segs) {
      var i :| 0 <= i < |segs| && segs[i].start == s;
      assert StartsOf(segs)[i] == s;
    }
  }

  lemma FiledNone(records: map<nat, RecordLoc>, starts: seq<nat>)
    requires records.Keys == {}
    ensures Filed(records, starts)
  {
  }

  /** What stays when nothing is cut: the segments that start below the index, whole. */
  lemma UncutOk(crc: Checksum, segs: seq<Segment>, files: map<nat, Bytes>, durable: map<nat, nat>, index: nat, m: nat, kept: seq<nat>, gone: set<nat>)
    requires DiskOk(crc, segs, files, durable) && Splits(segs, index, m) && Outside(segs, gone, 0, m)
    requires kept == StartsOf(Truncated(segs, index, m))
    ensures DiskOk(crc, segs[..m], files - gone, durable - gone) && Listed(kept, segs[..m])
    ensures kept == [] <==> segs[..m] == []
    ensures kept != [] ==> kept[|kept| - 1] == Last(segs[..m]).start
    ensures |segs[..m]| == m <= |segs|
  {
    hide Frames.Encode, Stored, Synced;
    DiskSliced(crc, segs, files, durable, gone, 0, m);
    assert segs[0..m] == segs[..m];
    assert kept == StartsOf(segs[..m]);
    hide Outside, Splits, Truncated;
    StartsAscend(crc, segs[..m]);
  }

  /** All of a truncation: the files, the index and the active segment agree again. */
  lemma TruncateOk(crc: Checksum, segs: seq<Segment>, files: map<nat, Bytes>, durable: map<nat, nat>, floor: int,
                   records: map<nat, RecordLoc>, contents: map<nat, Bytes>, index: nat, m: nat, gone: set<nat>,
                   files1: map<nat, Bytes>, durable1: map<nat, nat>)
    requires DiskOk(crc, segs, files, durable) && IndexOk(crc, segs, floor, records, contents)
    requires floor < index && Splits(segs, index, m) && Outside(segs, gone, 0, m)
    requires CutFiles(files, durable, records, index, files1, durable1)
    ensures var fewer := Truncated(segs, index, m);
            && DiskOk(crc, fewer, files1 - gone, durable1 - gone) && (GapFree(segs) ==> GapFree(fewer))
            && IndexOk(crc, fewer, floor, Below(records, index), Below(contents, index))
            && (fewer == [] ==> ActiveOf(crc, fewer) == None)
            && (fewer != [] ==>
                 && Last(fewer).start in files1 - gone
                 && ActiveOf(crc, fewer) == Some(Active(Last(fewer).start, |(files1 - gone)[Last(fewer).start]|)))
  {
    hide Frames.Encode, Frames.OffsetOf, Ordered, GapFree, Stored, Synced, IndexOk, Truncated, Below, Outside, Splits, CutFiles;
    CutFilesAre(crc, segs, floor, records, contents, files, durable, index, m, files1, durable1);
    DiskTruncated(crc, segs, files, durable, gone, index, m);
    TruncatedOrdered(segs, index, m);
    if GapFree(segs) {
      TruncatedGapFree(segs, index, m);
    }
    IndexTruncated(crc, segs, floor, records, contents, index, m);
    if Truncated(segs, index, m) != [] {
      DiskSynced(crc, Truncated(segs, index, m), files1 - gone, durable1 - gone);
    }
  }

  lemma CutFilesAre(crc: Checksum, segs: seq<Segment>, floor: int, records: map<nat, RecordLoc>, contents: map<nat, Bytes>,
                    files: map<nat, Bytes>, durable: map<nat, nat>, index: nat, m: nat, files1: map<nat, Bytes>, durable1: map<nat, nat>)
    requires Ordered(segs) && IndexOk(crc, segs, floor, records, contents) && floor < index && Splits(segs, index, m)
    requires CutFiles(files, durable, records, index, files1, durable1)
    ensures if m > 0 && Covers(segs[m - 1], index) then
              var g := segs[m - 1];
              var at := OffsetOf(crc, g.payloads, index - g.start);
              && g.start in files && at <= |files[g.start]|
              && files1 == files[g.start := files[g.start][..at]] && durable1 == durable[g.start := at]
            else files1 == files && durable1 == durable
  {
    hide Frames.Encode, Frames.OffsetOf, IndexOk;
    CutLoc(crc, segs, floor, records, contents, index, m);
  }

  // ---------------------------------------------------------------- rotation

  /** The last segment is empty: its file is there already, and rotation reuses it. */
  lemma EmptyLast(crc: Checksum, segs: seq<Segment>, files: map<nat, Bytes>, durable: map<nat, nat>)
    requires DiskOk(crc, segs, files, durable) && segs != [] && Last(segs).End() == Last(segs).start
    ensures ActiveOf(crc, segs) == Some(Active(Last(segs).start, 0))
    ensures Last(segs).start in files && Last(segs).start in StartsOf(segs)
  {
    assert Last(segs).payloads == [];
    assert StartsOf(segs)[|segs| - 1] == Last(segs).start;
  }

  lemma PushedStarts(segs: seq<Segment>, start: nat, ks: seq<nat>)
    requires Ordered(segs + [Segment(start, [])]) && Ascending(ks)
    requires forall k :: k in ks <==> k in StartsOf(segs) || k == start
    ensures ks == StartsOf(segs + [Segment(start, [])])
  {
    var more := segs + [Segment(start, [])];
    assert StartsOf(more) == StartsOf(segs) + [start];
    SortedUnique(ks, StartsOf(more));
  }

  /** The segments after a rotation: an empty last one of that name is reused. */
  function Rotated(segs: seq<Segment>, start: nat): seq<Segment> {
    if segs != [] && Last(segs).start == start then segs else segs + [Segment(start, [])]
  }

  function WithFile<V>(m: map<nat, V>, start: nat, v: V): map<nat, V> {
    if start in m then m else m[start := v]
  }

  lemma RotatedStarts(crc: Checksum, segs: seq<Segment>, files: map<nat, Bytes>, durable: map<nat, nat>, starts: seq<nat>, start: nat, starts1: seq<nat>)
    requires DiskOk(crc, segs, files, durable) && starts == StartsOf(segs) && (segs != [] ==> Last(segs).End() <= start)
    requires if start in starts then starts1 == starts else Ascending(starts1) && forall s :: s in starts1 <==> s in starts || s == start
    ensures starts1 == StartsOf(Rotated(segs, start))
  {
    hide Frames.Encode, Stored, Synced;
    if segs != [] && Last(segs).start == start {
      assert starts[|segs| - 1] == start;
    } else {
      NextIsNew(crc, segs, files, durable, start);
      RotatedOrdered(segs, start);
      PushedStarts(segs, start, starts1);
    }
  }

  lemma RotatedEnd(segs: seq<Segment>, start: nat)
    requires segs != [] ==> Last(segs).End() <= start
    ensures Rotated(segs, start) != [] && Last(Rotated(segs, start)).End() == start
  {
  }

  /** A rotation, once the active file is durable. */
  lemma RotateOk(crc: Checksum, segs: seq<Segment>, files: map<nat, Bytes>, durable: map<nat, nat>, floor: int,
                 records: map<nat, RecordLoc>, contents: map<nat, Bytes>, start: nat)
    requires DiskOk(crc, segs, files, durable) && IndexOk(crc, segs, floor, records, contents)
    requires AllDurable(files, durable) && (segs != [] ==> Last(segs).End() <= start)
    ensures var more := Rotated(segs, start);
            && DiskOk(crc, more, WithFile(files, start, []), WithFile(durable, start, 0)) && IndexOk(crc, more, floor, records, contents)
            && ActiveOf(crc, more) == Some(Active(start, 0))
            && (start in StartsOf(segs) <==> start in files) && (start in files ==> more == segs)
            && (start !in files ==> more == segs + [Segment(start, [])])
            && (GapFree(segs) && (segs != [] ==> Last(segs).End() == start) ==> GapFree(more))
  {
    hide Frames.Encode, Ordered, GapFree, Stored, Synced, IndexOk, StartsOf;
    SameKeysOnDisk(crc, segs, files, durable);
    if segs != [] {
      DiskSynced(crc, segs, files, durable);
    }
    if segs != [] && Last(segs).start == start {
      EmptyLast(crc, segs, files, durable);
    } else {
      NextIsNew(crc, segs, files, durable, start);
      DiskRotated(crc, segs, files, durable, start);
      IndexPushed(crc, segs, floor, records, contents, start);
      NewActive(crc, segs, start);
      if GapFree(segs) && (segs != [] ==> Last(segs).End() == start) {
        RotatedGapFree(segs, start);
      }
    }
  }

  lemma NewActive(crc: Checksum, segs: seq<Segment>, start: nat)
    requires Ordered(segs + [Segment(start, [])])
    ensures ActiveOf(crc, segs + [Segment(start, [])]) == Some(Active(start, 0))
  {
    EncodeNone(crc);
  }

  lemma GrownEnd(crc: Checksum, segs: seq<Segment>, p: Bytes)
    requires Ordered(segs) && segs != [] && Fits(p)
    ensures var more := WithLast(segs, Grown(Last(segs), p));
            && Ordered(more) ==>
                 && ActiveOf(crc, more) == Some(Active(Last(segs).start, |Encode(crc, Last(segs).payloads)| + |Frame(crc, p)|))
                 && StartsOf(more) == StartsOf(segs)
  {
    hide Frames.Encode, Frames.Frame;
    EncodeSnoc(crc, Last(segs).payloads, p);
    var more := WithLast(segs, Grown(Last(segs), p));
    assert forall i :: 0 <= i < |segs| ==> more[i].start == segs[i].start;
  }

  /** The files with `bytes` written at the end of file `at`, which may be new. */
  function WrittenTo(files: map<nat, Bytes>, at: nat, bytes: Bytes): map<nat, Bytes> {
    files[at := (if at in files then files[at] else []) + bytes]
  }

  /** Everything is durable but the last `n` bytes of file `at`. */
  predicate AllBut(files: map<nat, Bytes>, durable: map<nat, nat>, at: nat, n: nat) {
    durable.Keys == files.Keys && forall s :: s in files ==> durable[s] + (if s == at then n else 0) == |files[s]|
  }

  lemma NewFileDurable(files: map<nat, Bytes>, durable: map<nat, nat>, start: nat)
    requires AllDurable(files, durable)
    ensures AllDurable(WithFile(files, start, []), WithFile(durable, start, 0))
  {
  }

  lemma FrameHolds(crc: Checksum, file: Bytes, start: nat, p: Bytes)
    requires Fits(p)
    ensures Holding(file + Frame(crc, p), RecordLoc(start, |file| + HEADER_BYTES, |p|), p)
  {
  }

  lemma WrittenNew(files: map<nat, Bytes>, at: nat, frame: Bytes)
    ensures var files1 := WithFile(files, at, []); at in files1 && files1[at := files1[at] + frame] == WrittenTo(files, at, frame)
  {
  }

  lemma RotatedSome(segs: seq<Segment>, start: nat)
    ensures Rotated(segs, start) != []
  {
  }

  lemma AppendedIs(segs: seq<Segment>, rotates: bool, index: nat, p: Bytes, base: seq<Segment>)
    requires base != []
    ensures base == (if rotates then Rotated(segs, index) else segs) ==>
              && WithLast(base, Grown(Last(base), p)) == AppendedTo(segs, rotates, index, p) != []
              && Last(AppendedTo(segs, rotates, index, p)).End() == Last(base).End() + 1
  {
    if rotates && !(segs != [] && Last(segs).start == index) && base == Rotated(segs, index) {
      assert [] + [p] == [p];
    }
  }

  /** A frame at the end of a file is found where the index says, and moves no other record. */
  lemma PointsFurther(crc: Checksum, files: map<nat, Bytes>, records: map<nat, RecordLoc>, contents: map<nat, Bytes>, at: nat, index: nat, p: Bytes)
    requires Points(files, records, contents) && at in files && Fits(p)
    ensures Points(files[at := files[at] + Frame(crc, p)], records[index := RecordLoc(at, |files[at]| + HEADER_BYTES, |p|)], contents[index := p])
  {
    hide Frames.Frame;
    FrameHolds(crc, files[at], at, p);
    var files1 := files[at := files[at] + Frame(crc, p)];
    forall k | k in records && k != index
      ensures records[k].segmentStart in files1 && Holding(files1[records[k].segmentStart], records[k], contents[k])
    {
      StillHolding(files[records[k].segmentStart], files1[records[k].segmentStart], records[k], contents[k]);
    }
  }

  lemma PointsKept(files: map<nat, Bytes>, start: nat, records: map<nat, RecordLoc>, contents: map<nat, Bytes>)
    requires Points(files, records, contents)
    ensures Points(WithFile(files, start, []), records, contents)
  {
  }

  lemma StillHolding(file: Bytes, more: Bytes, loc: RecordLoc, p: Bytes)
    requires Holding(file, loc, p) && file <= more
    ensures Holding(more, loc, p)
  {
    assert more == file + more[|file|..];
  }

  lemma FrameUnsynced(files: map<nat, Bytes>, durable: map<nat, nat>, at: nat, frame: Bytes)
    requires AllDurable(files, durable) && at in files
    ensures AllBut(files[at := files[at] + frame], durable, at, |frame|)
  {
  }

  // ---------------------------------------------------------------- files without the index

  /** The listed starts are those of segments, the last one included. */
  predicate Listed(starts: seq<nat>, segs: seq<Segment>) {
    && Ascending(starts) && (forall i :: 0 <= i < |starts| ==> starts[i] in StartsOf(segs))
    && (segs == [] <==> starts == []) && (segs != [] ==> starts[|starts| - 1] == Last(segs).start)
  }

  /** Every indexed record is in a listed segment, under an index below the next one. */
  predicate Filed(records: map<nat, RecordLoc>, starts: seq<nat>) {
    forall k :: k in records ==> FiledAt(records[k].segmentStart, starts, k)
  }

  predicate FiledAt(start: nat, starts: seq<nat>, k: nat) {
    exists i :: 0 <= i < |starts| && starts[i] == start && forall j :: i < j < |starts| ==> k < starts[j]
  }

  /** The active segment is the last one. */
  predicate ActiveAt(active: Option<Active>, segs: seq<Segment>) {
    (active.None? <==> segs == []) && (active.Some? ==> active.value.start == Last(segs).start)
  }

  /** The segments after an append: one record more in the last one, or in a new one after it. */
  function AppendedTo(segs: seq<Segment>, rotates: bool, index: nat, p: Bytes): seq<Segment> {
    if segs != [] && (!rotates || Last(segs).start == index) then WithLast(segs, Grown(Last(segs), p))
    else segs + [Segment(index, [p])]
  }

  /** The index is one at which a rotation may begin a file: the last one's name, or one past all that is there. */
  predicate Begins(segs: seq<Segment>, records: map<nat, RecordLoc>, index: nat) {
    || (segs != [] && Last(segs).start == index)
    || ((segs != [] ==> Last(segs).End() <= index) && forall k :: k in records ==> k < index)
  }

  /** A file begun at such an index, or taken up again, is the last one. */
  lemma BeginOk(crc: Checksum, segs: seq<Segment>, files: map<nat, Bytes>, durable: map<nat, nat>, records: map<nat, RecordLoc>,
                starts: seq<nat>, start: nat, starts1: seq<nat>)
    requires DiskOk(crc, segs, files, durable) && AllDurable(files, durable) && Listed(starts, segs) && Filed(records, starts) && Begins(segs, records, start)
    requires if start in starts then starts1 == starts else Ascending(starts1) && forall s :: s in starts1 <==> s in starts || s == start
    ensures var more := Rotated(segs, start);
            && DiskOk(crc, more, WithFile(files, start, []), WithFile(durable, start, 0)) && Listed(starts1, more) && Filed(records, starts1)
            && more != [] && Last(more).start == start
  {
    hide Frames.Encode, Ordered, Stored, Synced, Filed;
    SameKeysOnDisk(crc, segs, files, durable);
    if segs != [] {
      DiskSynced(crc, segs, files, durable);
    }
    if segs != [] && Last(segs).start == start {
      assert starts[|starts| - 1] in starts;
    } else {
      NextIsNew(crc, segs, files, durable, start);
      DiskRotated(crc, segs, files, durable, start);
      RotatedBelow(crc, segs, files, durable, start);
      hide DiskOk;
      ListedPushed(segs, starts, start, starts1);
      FiledPushed(records, starts, start, starts1);
    }
  }

  lemma RotatedBelow(crc: Checksum, segs: seq<Segment>, files: map<nat, Bytes>, durable: map<nat, nat>, start: nat)
    requires DiskOk(crc, segs, files, durable) && (segs != [] ==> Last(segs).End() <= start && Last(segs).start < start)
    ensures forall i :: 0 <= i < |segs| ==> segs[i].start < start
  {
    RotatedOrdered(segs, start);
  }

  lemma ListedPushed(segs: seq<Segment>, starts: seq<nat>, start: nat, starts1: seq<nat>)
    requires Listed(starts, segs) && (forall i :: 0 <= i < |segs| ==> segs[i].start < start)
    requires Ascending(starts1) && forall s :: s in starts1 <==> s in starts || s == start
    ensures starts1 == starts + [start] && Listed(starts1, segs + [Segment(start, [])])
  {
    var more := segs + [Segment(start, [])];
    assert StartsOf(more) == StartsOf(segs) + [start];
    assert forall i :: 0 <= i < |starts| ==> starts[i] < start;
    SortedUnique(starts1, starts + [start]);
  }

  lemma FiledPushed(records: map<nat, RecordLoc>, starts: seq<nat>, start: nat, starts1: seq<nat>)
    requires Filed(records, starts) && starts1 == starts + [start] && forall k :: k in records ==> k < start
    ensures Filed(records, starts1)
  {
    forall k | k in records ensures FiledAt(records[k].segmentStart, starts1, k) {
      assert FiledAt(records[k].segmentStart, starts, k);
      var i :| 0 <= i < |starts| && starts[i] == records[k].segmentStart && forall j :: i < j < |starts| ==> k < starts[j];
      assert starts1[i] == starts[i];
    }
  }

  /** One frame more in the last file. */
  lemma GrowOk(crc: Checksum, segs: seq<Segment>, files: map<nat, Bytes>, durable: map<nat, nat>, records: map<nat, RecordLoc>,
               starts: seq<nat>, index: nat, p: Bytes, loc: RecordLoc)
    requires DiskOk(crc, segs, files, durable) && segs != [] && Fits(p) && Listed(starts, segs) && Filed(records, starts)
    requires loc.segmentStart == Last(segs).start
    ensures var more, last := WithLast(segs, Grown(Last(segs), p)), Last(segs);
            && last.start in files && DiskOk(crc, more, files[last.start := files[last.start] + Frame(crc, p)], durable)
            && Listed(starts, more) && Filed(records[index := loc], starts)
  {
    hide Frames.Encode, Frames.Frame, Ordered, Stored, Synced;
    DiskSynced(crc, segs, files, durable);
    DiskGrown(crc, segs, files, durable, p);
    hide DiskOk;
    var more, records1 := WithLast(segs, Grown(Last(segs), p)), records[index := loc];
    assert forall i :: 0 <= i < |segs| ==> more[i].start == segs[i].start;
    assert StartsOf(more) == StartsOf(segs);
    forall k | k in records1 ensures FiledAt(records1[k].segmentStart, starts, k) {
      if k == index {
        assert starts[|starts| - 1] == loc.segmentStart;
      } else {
        assert FiledAt(records[k].segmentStart, starts, k);
      }
    }
  }

  /** The segments whose files were not deleted. */
  function Remaining(segs: seq<Segment>, gone: set<nat>): seq<Segment> {
    if segs == [] then []
    else
      var rest := Remaining(segs[..|segs| - 1], gone);
      if Last(segs).start in gone then rest else rest + [Last(segs)]
  }

  lemma {:induction false} RemainingIs(segs: seq<Segment>, gone: set<nat>)
    requires Ordered(segs)
    ensures Ordered(Remaining(segs, gone)) && forall g :: g in Remaining(segs, gone) <==> g in segs && g.start !in gone
    ensures segs != [] && Last(segs).start !in gone ==> Remaining(segs, gone) != [] && Last(Remaining(segs, gone)) == Last(segs)
    decreases |segs|
  {
    if segs != [] {
      var n := |segs| - 1;
      var front := segs[..n];
      RemainingIs(front, gone);
      assert segs == front + [segs[n]];
      var rest := Remaining(front, gone);
      forall i | 0 <= i < |rest| ensures rest[i].start < segs[n].start && rest[i].End() <= segs[n].start {
        assert rest[i] in front;
      }
    }
  }

  lemma RemainingDisk(crc: Checksum, segs: seq<Segment>, files: map<nat, Bytes>, durable: map<nat, nat>, gone: set<nat>)
    requires DiskOk(crc, segs, files, durable) && (segs != [] ==> Last(segs).start !in gone)
    ensures DiskOk(crc, Remaining(segs, gone), files - gone, durable - gone)
  {
    hide Frames.Encode, Remaining, Ordered, Stored, Synced, RemainsAt;
    var rest := Remaining(segs, gone);
    RemainingIs(segs, gone);
    EmptyRemains(segs, gone);
    forall i | 0 <= i < |rest| ensures AllFit(rest[i].payloads) && RemainsAt(crc, segs, files, durable, gone, rest, i) {
      KeptSegment(crc, segs, files, durable, gone, rest, i);
    }
    RestNamed(crc, segs, files, gone, rest);
    RestOk(crc, segs, files, durable, gone, rest);
  }

  lemma RestNamed(crc: Checksum, segs: seq<Segment>, files: map<nat, Bytes>, gone: set<nat>, rest: seq<Segment>)
    requires Ordered(segs) && Stored(crc, segs, files) && forall g :: g in rest <==> g in segs && g.start !in gone
    ensures Named(rest, files - gone)
  {
    hide Frames.Encode, Ordered;
    var files1 := files - gone;
    forall s | s in files1 ensures exists i :: 0 <= i < |rest| && rest[i].start == s {
      var j :| 0 <= j < |segs| && segs[j].start == s;
      assert segs[j] in rest;
    }
    forall i | 0 <= i < |rest| ensures rest[i].start in files1 {
      assert rest[i] in rest;
      var j :| 0 <= j < |segs| && segs[j] == rest[i];
    }
  }

  lemma RestOk(crc: Checksum, segs: seq<Segment>, files: map<nat, Bytes>, durable: map<nat, nat>, gone: set<nat>, rest: seq<Segment>)
    requires Ordered(rest) && Named(rest, files - gone) && Synced(segs, files, durable)
    requires forall i :: 0 <= i < |rest| ==> AllFit(rest[i].payloads) && RemainsAt(crc, segs, files, durable, gone, rest, i)
    ensures DiskOk(crc, rest, files - gone, durable - gone)
  {
    hide Frames.Encode, Ordered, Named, AllFit;
    forall i | 0 <= i < |rest| ensures rest[i].start in files - gone && (files - gone)[rest[i].start] == Encode(crc, rest[i].payloads) {
      assert RemainsAt(crc, segs, files, durable, gone, rest, i);
    }
    forall i | 0 <= i < |rest| - 1 ensures rest[i].start in files - gone && (durable - gone)[rest[i].start] == |(files - gone)[rest[i].start]| {
      assert RemainsAt(crc, segs, files, durable, gone, rest, i);
    }
  }

  ghost predicate RemainsAt(crc: Checksum, segs: seq<Segment>, files: map<nat, Bytes>, durable: map<nat, nat>, gone: set<nat>, rest: seq<Segment>, i: nat)
    requires i < |rest| && AllFit(rest[i].payloads)
  {
    var s := rest[i].start;
    s in files && s !in gone && files[s] == Encode(crc, rest[i].payloads) && (i < |rest| - 1 ==> s in durable && durable[s] == |files[s]|)
  }

  lemma KeptSegment(crc: Checksum, segs: seq<Segment>, files: map<nat, Bytes>, durable: map<nat, nat>, gone: set<nat>, rest: seq<Segment>, i: nat)
    requires DiskOk(crc, segs, files, durable) && Ordered(rest) && i < |rest| && segs != [] && Last(rest) == Last(segs)
    requires forall g :: g in rest <==> g in segs && g.start !in gone
    ensures AllFit(rest[i].payloads) && RemainsAt(crc, segs, files, durable, gone, rest, i)
  {
    hide Frames.Encode;
    assert rest[i] in rest;
    var j :| 0 <= j < |segs| && segs[j] == rest[i];
    assert i < |rest| - 1 ==> j < |segs| - 1;
  }

  /**
   `segs1` is what a purge leaves of `segs`: no segment is new, the last one stays, and one that went
   lies before another that begins at most one above `index`.
   */
  ghost predicate Purged(segs: seq<Segment>, index: nat, segs1: seq<Segment>) {
    && (forall g :: g in segs1 ==> g in segs) && (segs == [] <==> segs1 == []) && (segs != [] ==> Last(segs1) == Last(segs))
    && forall i :: 0 <= i < |segs| && segs[i] !in segs1 ==> exists j :: i < j < |segs| && segs[j].start <= index + 1
  }

  lemma RemainingPurged(crc: Checksum, segs: seq<Segment>, files: map<nat, Bytes>, durable: map<nat, nat>, starts: seq<nat>, index: nat, gone: set<nat>)
    requires DiskOk(crc, segs, files, durable) && Listed(starts, segs)
    requires forall s :: s in gone ==> exists i :: 0 <= i < |starts| && starts[i] == s && Deletable(starts, i, index)
    ensures Purged(segs, index, Remaining(segs, gone))
  {
    hide DiskOk, Remaining;
    DiskOrdered(crc, segs, files, durable);
    RemainingIs(segs, gone);
    EmptyRemains(segs, gone);
    LastStays(segs, starts, index, gone);
    forall i | 0 <= i < |segs| && segs[i] !in Remaining(segs, gone) ensures exists j :: i < j < |segs| && segs[j].start <= index + 1 {
      assert segs[i] in segs && segs[i].start in gone;
      NextListed(segs, starts, index, gone, i);
    }
  }

  /** A deleted file lies before another that begins at most one above the index. */
  lemma NextListed(segs: seq<Segment>, starts: seq<nat>, index: nat, gone: set<nat>, i: nat)
    requires Ordered(segs) && Listed(starts, segs) && i < |segs| && segs[i].start in gone
    requires forall s :: s in gone ==> exists i :: 0 <= i < |starts| && starts[i] == s && Deletable(starts, i, index)
    ensures exists j :: i < j < |segs| && segs[j].start <= index + 1
  {
    var m :| 0 <= m < |starts| && starts[m] == segs[i].start && Deletable(starts, m, index);
    var next := m + 1;
    assert starts[next] in StartsOf(segs) && starts[m] < starts[next];
    var j :| 0 <= j < |segs| && segs[j].start == starts[next];
  }

  /** The files a purge deletes: those listed whose successor begins at most one above the index. */
  function Superseded(starts: seq<nat>, index: nat): set<nat> {
    set i | 0 <= i < |starts| && Deletable(starts, i, index) :: starts[i]
  }

  /** What is left of the segments is what is not deleted. */
  ghost predicate Survivors(segs: seq<Segment>, gone: set<nat>, segs1: seq<Segment>) {
    forall g :: g in segs1 <==> g in segs && g.start !in gone
  }

  /** The first `e` of the names. */
  function FirstOf(starts: seq<nat>, e: nat): set<nat>
    requires e <= |starts|
  {
    set i | 0 <= i < e :: starts[i]
  }

  /** The directories a purge passes through: the superseded files go one at a time, the lowest first. */
  ghost predicate OneByOne(before: Directory, starts: seq<nat>, index: nat, after: seq<Directory>) {
    && |after| <= |starts| && FirstOf(starts, |after|) == Superseded(starts, index)
    && forall e :: 0 <= e < |after| ==> after[e] == Without(before, FirstOf(starts, e + 1))
  }

  /** The directory after `e` deletions. */
  function DirectoryAt(before: Directory, after: seq<Directory>, e: nat): Directory
    requires e <= |after|
  {
    if e == 0 then before else after[e - 1]
  }

  lemma AtIsWithout(before: Directory, starts: seq<nat>, index: nat, after: seq<Directory>, e: nat)
    requires OneByOne(before, starts, index, after) && e <= |after|
    ensures e <= |starts| && DirectoryAt(before, after, e) == Without(before, FirstOf(starts, e)) && FirstOf(starts, e) <= Superseded(starts, index)
  {
    if e == 0 {
      assert before.files - {} == before.files && before.durable - {} == before.durable;
    }
  }

  lemma NoneDeleted(starts: seq<nat>)
    ensures FirstOf(starts, 0) == {}
  {
  }

  lemma LaterKept(starts: seq<nat>, index: nat, a: nat, i: nat)
    requires Ascending(starts) && a <= i < |starts| && !Deletable(starts, a, index)
    ensures !Deletable(starts, i, index)
  {
    if i + 1 < |starts| {
      assert a < i ==> starts[a + 1] <= starts[i + 1];
    }
  }

  /** While any file is deletable, those deleted so far are all before it. */
  lemma NextDeleted(starts: seq<nat>, index: nat, done: nat, i: nat)
    requires Ascending(starts) && done <= i < |starts| && (done < i ==> !Deletable(starts, done, index)) && Deletable(starts, i, index)
    ensures done == i && FirstOf(starts, i + 1) == FirstOf(starts, i) + {starts[i]}
  {
    if done < i {
      LaterKept(starts, index, done, i);
    }
  }

  lemma GoneAre(starts: seq<nat>, index: nat, gone: set<nat>)
    requires forall i :: 0 <= i < |starts| ==> (starts[i] in gone <==> Deletable(starts, i, index))
    requires forall s :: s in gone ==> s in starts
    ensures gone == Superseded(starts, index)
  {
    hide Deletable;
    forall s | s in gone ensures s in Superseded(starts, index) {
      var i :| 0 <= i < |starts| && starts[i] == s;
    }
  }

  lemma RemainingLeft(segs: seq<Segment>, gone: set<nat>)
    requires Ordered(segs)
    ensures Survivors(segs, gone, Remaining(segs, gone))
  {
    RemainingIs(segs, gone);
  }

  /** Of the files still listed, none but the last has a successor that low. */
  lemma NoneSuperseded(records: map<nat, RecordLoc>, starts: seq<nat>, index: nat, segs: seq<Segment>, starts1: seq<nat>)
    requires Listed(starts, segs) && Filed(records, starts) && Ascending(starts1)
    requires forall s :: s in starts1 <==> s in starts && ((segs != [] && Last(segs).start == s) || HasRecord(Above(records, index), s))
    ensures Superseded(starts1, index) == {}
  {
    hide HasRecord, Above;
    forall i | 0 <= i < |starts1| ensures !Deletable(starts1, i, index) {
      if i + 1 < |starts1| {
        var next := starts1[i + 1];
        assert starts1[i] in starts1 && next in starts1 && starts1[i] < next;
        var a :| 0 <= a < |starts| && starts[a] == starts1[i];
        var b :| 0 <= b < |starts| && starts[b] == next;
        assert a < b && starts[a] < starts[|starts| - 1] == Last(segs).start;
        if Deletable(starts, a, index) {
          RetainedKept(records, starts, index, a);
        } else {
          assert index + 1 < starts[a + 1] <= next;
        }
      }
    }
  }

  lemma GoneIs(starts: seq<nat>, index: nat, gone: set<nat>)
    requires forall i :: 0 <= i < |starts| ==> (starts[i] in gone <==> Deletable(starts, i, index))
    requires forall s :: s in gone ==> s in starts
    ensures forall s :: s in gone <==> exists i :: 0 <= i < |starts| && starts[i] == s && Deletable(starts, i, index)
  {
    hide Deletable;
    forall s | s in gone ensures exists i :: 0 <= i < |starts| && starts[i] == s && Deletable(starts, i, index) {
      var i :| 0 <= i < |starts| && starts[i] == s;
    }
  }

  /** The files determine the segments. */
  lemma SameSegments(crc: Checksum, a: seq<Segment>, b: seq<Segment>, files: map<nat, Bytes>, durable: map<nat, nat>)
    requires DiskOk(crc, a, files, durable) && DiskOk(crc, b, files, durable)
    ensures a == b
  {
    hide Frames.Encode, Frames.Scan, Synced;
    var sa, sb := StartsOf(a), StartsOf(b);
    forall s ensures s in sa <==> s in sb {
      StartIffFile(crc, a, files, s);
      StartIffFile(crc, b, files, s);
    }
    SortedUnique(sa, sb);
    forall i | 0 <= i < |a| ensures a[i] == b[i] {
      assert sa[i] == sb[i];
      ScanEncode(crc, a[i].payloads);
      ScanEncode(crc, b[i].payloads);
    }
  }

  lemma StartIffFile(crc: Checksum, segs: seq<Segment>, files: map<nat, Bytes>, s: nat)
    requires Ordered(segs) && Stored(crc, segs, files)
    ensures s in StartsOf(segs) <==> s in files
  {
    if s in files {
      var i :| 0 <= i < |segs| && segs[i].start == s;
      assert StartsOf(segs)[i] == s;
    }
  }

  /** A start that is retained names a file that was not deleted. */
  lemma RetainedKept(records: map<nat, RecordLoc>, starts: seq<nat>, index: nat, i: nat)
    requires Ascending(starts) && Filed(records, starts) && i < |starts| && Deletable(starts, i, index)
    ensures !HasRecord(Above(records, index), starts[i])
  {
    var above, next := Above(records, index), starts[i + 1];
    forall k | k in above ensures above[k].segmentStart != starts[i] {
      assert FiledAt(records[k].segmentStart, starts, k);
      var i' :| 0 <= i' < |starts| && starts[i'] == records[k].segmentStart && forall j :: i' < j < |starts| ==> k < starts[j];
      assert i' == i ==> k < next;
    }
  }

  /** A purge keeps files, starts and the index's segments in step, with or without gaps. */
  lemma PurgeGrounded(crc: Checksum, segs: seq<Segment>, files: map<nat, Bytes>, durable: map<nat, nat>, records: map<nat, RecordLoc>,
                      starts: seq<nat>, index: nat, gone: set<nat>, starts1: seq<nat>)
    requires DiskOk(crc, segs, files, durable) && Listed(starts, segs) && Filed(records, starts) && Ascending(starts1)
    requires forall s :: s in gone <==> exists i :: 0 <= i < |starts| && starts[i] == s && Deletable(starts, i, index)
    requires forall s :: s in starts1 <==> s in starts && ((segs != [] && Last(segs).start == s) || HasRecord(Above(records, index), s))
    ensures DiskOk(crc, Remaining(segs, gone), files - gone, durable - gone)
    ensures Listed(starts1, Remaining(segs, gone)) && Filed(Above(records, index), starts1)
    ensures segs == [] <==> Remaining(segs, gone) == []
    ensures segs != [] ==> Last(Remaining(segs, gone)) == Last(segs)
  {
    hide DiskOk, Remaining, HasRecord, Above, Listed, Filed, Deletable;
    LastStays(segs, starts, index, gone);
    DiskOrdered(crc, segs, files, durable);
    RemainingDisk(crc, segs, files, durable, gone);
    hide Ordered;
    RemainingIs(segs, gone);
    EmptyRemains(segs, gone);
    RetainedListed(segs, records, starts, index, gone, starts1);
    ListedAscend(starts, segs);
    RetainedFiled(records, starts, index, starts1);
  }

  lemma ListedAscend(starts: seq<nat>, segs: seq<Segment>)
    requires Listed(starts, segs)
    ensures Ascending(starts)
  {
  }

  lemma DiskOrdered(crc: Checksum, segs: seq<Segment>, files: map<nat, Bytes>, durable: map<nat, nat>)
    requires DiskOk(crc, segs, files, durable)
    ensures Ordered(segs)
  {
  }

  /** The last segment's file is never deleted. */
  lemma LastStays(segs: seq<Segment>, starts: seq<nat>, index: nat, gone: set<nat>)
    requires Listed(starts, segs)
    requires forall s :: s in gone ==> exists i :: 0 <= i < |starts| && starts[i] == s && Deletable(starts, i, index)
    ensures segs != [] ==> Last(segs).start !in gone
  {
  }

  lemma EmptyRemains(segs: seq<Segment>, gone: set<nat>)
    ensures segs == [] ==> Remaining(segs, gone) == []
  {
  }

  lemma RetainedListed(segs: seq<Segment>, records: map<nat, RecordLoc>, starts: seq<nat>, index: nat, gone: set<nat>, starts1: seq<nat>)
    requires Listed(starts, segs) && Filed(records, starts) && Ascending(starts1)
    requires forall s :: s in gone <==> exists i :: 0 <= i < |starts| && starts[i] == s && Deletable(starts, i, index)
    requires forall s :: s in starts1 <==> s in starts && ((segs != [] && Last(segs).start == s) || HasRecord(Above(records, index), s))
    requires forall g :: g in Remaining(segs, gone) <==> g in segs && g.start !in gone
    requires segs == [] <==> Remaining(segs, gone) == []
    requires segs != [] ==> Last(Remaining(segs, gone)) == Last(segs)
    ensures Listed(starts1, Remaining(segs, gone))
  {
    hide Remaining, HasRecord, Above, Filed;
    var rest := Remaining(segs, gone);
    forall i | 0 <= i < |starts1| ensures starts1[i] in StartsOf(rest) {
      assert starts1[i] in starts1;
      var j :| 0 <= j < |starts| && starts[j] == starts1[i];
      if Deletable(starts, j, index) {
        RetainedKept(records, starts, index, j);
      }
      assert starts[j] in StartsOf(segs) && starts[j] !in gone;
      var m :| 0 <= m < |segs| && segs[m].start == starts[j];
      assert segs[m] in rest;
      var q :| 0 <= q < |rest| && rest[q] == segs[m];
      assert StartsOf(rest)[q] == starts1[i];
    }
    assert starts1 != [] ==> starts1[0] in starts1;
    if segs != [] {
      LastRetained(starts, starts1, Last(segs).start);
    }
  }

  lemma LastRetained(starts: seq<nat>, starts1: seq<nat>, last: nat)
    requires Ascending(starts) && Ascending(starts1) && starts != [] && starts[|starts| - 1] == last && last in starts1
    requires forall s :: s in starts1 ==> s in starts
    ensures starts1 != [] && starts1[|starts1| - 1] == last
  {
    var top := starts1[|starts1| - 1];
    assert top in starts1;
    var j :| 0 <= j < |starts| && starts[j] == top;
    var i :| 0 <= i < |starts1| && starts1[i] == last;
  }

  lemma RetainedFiled(records: map<nat, RecordLoc>, starts: seq<nat>, index: nat, starts1: seq<nat>)
    requires Filed(records, starts) && Ascending(starts) && Ascending(starts1)
    requires forall s :: s in starts1 ==> s in starts
    requires forall s :: s in starts && HasRecord(Above(records, index), s) ==> s in starts1
    ensures Filed(Above(records, index), starts1)
  {
    var above := Above(records, index);
    forall k | k in above ensures FiledAt(above[k].segmentStart, starts1, k) {
      assert FiledAt(records[k].segmentStart, starts, k);
      var i :| 0 <= i < |starts| && starts[i] == records[k].segmentStart && forall j :: i < j < |starts| ==> k < starts[j];
      assert HasRecord(above, starts[i]) && starts[i] in starts;
      var i1 :| 0 <= i1 < |starts1| && starts1[i1] == starts[i];
      forall j | i1 < j < |starts1| ensures k < starts1[j] {
        assert starts1[j] in starts1;
        var m :| 0 <= m < |starts| && starts[m] == starts1[j];
      }
    }
  }

  lemma FiledSlice(records: map<nat, RecordLoc>, crc: Checksum, segs: seq<Segment>, floor: int, contents: map<nat, Bytes>)
    requires Ordered(segs) && IndexOk(crc, segs, floor, records, contents)
    ensures Filed(records, StartsOf(segs))
  {
    hide Frames.Encode, Frames.OffsetOf, PayloadIn;
    var starts := StartsOf(segs);
    forall k | k in records ensures FiledAt(records[k].segmentStart, starts, k) {
      assert Covered(segs, k);
      var i :| 0 <= i < |segs| && Covers(segs[i], k);
      assert Entered(crc, segs[i], k, records, contents);
      assert starts[i] == records[k].segmentStart && forall j :: i < j < |starts| ==> k < starts[j];
    }
  }

  // ---------------------------------------------------------------- the log

  class SegmentedLog {
    const crc: Checksum
    const maxBytes: nat

    /** The directory: segment files by the index in their name, and how much of each is durable. */
    var files: map<nat, Bytes>
    ghost var durable: map<nat, nat>

    var starts: seq<nat>
    var records: map<nat, RecordLoc>
    var active: Option<Active>

    /** What the files hold, the highest index purged, and the map the log stands for. */
    ghost var segs: seq<Segment>
    ghost var floor: int
    ghost var contents: map<nat, Bytes>
    /** The directory after each file a purge deleted. */
    ghost var trail: seq<Directory>

    /** The files hold the segments and the active one is the last, whatever the index says. */
    ghost predicate Grounded()
      reads this
    {
      DiskOk(crc, segs, files, durable) && Listed(starts, segs) && Filed(records, starts) && ActiveAt(active, segs)
    }

    /** Files, index and map agree. */
    ghost predicate Consistent()
      reads this
    {
      && DiskOk(crc, segs, files, durable) && IndexOk(crc, segs, floor, records, contents)
      && starts == StartsOf(segs) && active == ActiveOf(crc, segs) && -1 <= floor
    }

    /** Moreover no index is skipped between segments. */
    ghost predicate Valid()
      reads this
    {
      Consistent() && GapFree(segs)
    }

    /**
     Opens a directory: reads the segment files in order up to the first damaged one, which is cut
     after its last whole frame. For a directory that held the segments `was`, with at most its
     last file cut short by a crash, every segment is read back and the log is consistent.
     */
    constructor (crc: Checksum, maxBytes: nat, disk: map<nat, Bytes>, ghost was: seq<Segment>)
      ensures this.crc == crc && this.maxBytes == maxBytes && floor == -1 && Shaped(starts, active)
      ensures ReadAsFar(crc, disk, starts) && Readable() && Tracks() && contents == Overlay(FilesRead(crc, disk, starts))
      ensures Recoverable(crc, was, disk) ==>
                && Consistent() && segs == ReadBack(crc, was, disk) && (GapFree(was) ==> Valid())
                && files.Keys == disk.Keys && AllDurable(files, durable)
    {
      var files0, starts0, records0, active0;
      ghost var durable0, contents0;
      files0, durable0, starts0, records0, contents0, active0 := ReadFiles(crc, disk, was);
      this.crc, this.maxBytes := crc, maxBytes;
      files, durable, starts, records, active := files0, durable0, starts0, records0, active0;
      segs, floor, contents, trail := ReadBack(crc, was, disk), -1, contents0, [];
    }

    /** Each entry of the index points at its record in the files. */
    ghost predicate Readable()
      reads this
    {
      Points(files, records, contents)
    }

    /** What a caller of `Append` owes: the next index, or any when the log is empty. */
    predicate IsNext(index: nat)
      reads `records
    {
      records.Keys == {} || (index - 1 in records.Keys && forall k :: k in records.Keys ==> k < index)
    }

    /** The index is above the floor and is where its frame will be read back. */
    ghost predicate Aligned(index: nat)
      reads `floor, `segs
    {
      floor < index && (segs == [] || index == Last(segs).End())
    }

    /** The record goes where a reopen will look for it: at the end of the last segment, or in a new one. */
    ghost predicate Placed(index: nat)
      reads this
    {
      floor < index && (segs == [] || index == Last(segs).End() || (NeedsRotation() && Last(segs).End() <= index))
    }

    /** The active file exists. */
    predicate Usable()
      reads this
    {
      active.Some? ==> active.value.start in files
    }

    /** The active file exists and is as long as the log thinks. */
    predicate Tracks()
      reads this
    {
      Usable() && (active.Some? ==> active.value.bytes == |files[active.value.start]|)
    }

    /** With an active file there is a last segment. */
    lemma HasSegment()
      requires Consistent() && active.Some?
      ensures segs != []
    {
    }

    lemma ConsistentGrounded()
      requires Consistent()
      ensures Grounded()
    {
      hide Frames.Encode, IndexOk, Ordered, Stored, Synced;
      StartsAscend(crc, segs);
      FiledSlice(records, crc, segs, floor, contents);
    }

    lemma ConsistentOrdered()
      requires Consistent()
      ensures Ordered(segs)
    {
    }

    lemma ConsistentReadable()
      requires Consistent()
      ensures Readable()
    {
      hide Frames.Encode, Ordered, Synced, IndexOk, StartsOf, Holding;
      SameKeys(crc, segs, floor, records, contents);
      forall k | k in records ensures records[k].segmentStart in files && Holding(files[records[k].segmentStart], records[k], contents[k]) {
        ReadsExact(crc, segs, files, floor, records, contents, k);
      }
    }

    /** The index and the map have the same keys, all above the floor. */
    lemma ValidKeys()
      requires Consistent()
      ensures records.Keys == contents.Keys && forall k :: k in contents ==> floor < k
    {
      SameKeys(crc, segs, floor, records, contents);
    }

    lemma ValidTracks()
      requires Consistent()
      ensures Tracks()
    {
      hide Frames.Encode, IndexOk, StartsOf;
      if segs != [] {
        DiskSynced(crc, segs, files, durable);
      }
    }

    predicate NeedsRotation()
      reads `active
    {
      active.None? || active.value.bytes >= maxBytes
    }

    /** Everything appended so far becomes durable. */
    method Sync()
      requires Usable()
      modifies `durable
      ensures active.Some? ==> durable == old(durable)[active.value.start := |files[active.value.start]|]
      ensures old(Consistent()) ==> Consistent() && AllDurable(files, durable)
      ensures old(Grounded()) ==> Grounded() && AllDurable(files, durable)
      ensures old(AllDurable(files, durable)) ==> AllDurable(files, durable)
    {
      hide Frames.Encode, Ordered, IndexOk, StartsOf, Listed, Filed;
      if active.Some? {
        hide Stored, Synced;
        if Consistent() || Grounded() {
          DiskSynced(crc, segs, files, durable);
        }
        durable := durable[active.value.start := |files[active.value.start]|];
      }
    }

    /** Starts a segment file, or takes one of that name again, and makes it the active one. */
    method OpenSegment(start: nat)
      modifies `files, `durable, `starts, `active, `segs
      ensures active == Some(Active(start, 0)) && files == WithFile(old(files), start, [])
      ensures old(Consistent() && AllDurable(files, durable) && (segs != [] ==> Last(segs).End() <= start)) ==>
                Consistent() && segs == Rotated(old(segs), start)
      ensures old(Valid() && AllDurable(files, durable) && (segs != [] ==> Last(segs).End() == start)) ==> GapFree(segs)
      ensures old(AllDurable(files, durable)) ==> AllDurable(files, durable)
      ensures old(Grounded() && AllDurable(files, durable) && Begins(segs, records, start)) ==> Grounded() && segs == Rotated(old(segs), start)
    {
      hide Frames.Encode, Frames.AllFit, Ordered, GapFree, Stored, Synced, IndexOk, StartsOf, Ascending, Rotated, AllDurable, WithFile, Listed, Filed, Begins, DiskOk;
      ghost var fits := Consistent() && AllDurable(files, durable) && (segs != [] ==> Last(segs).End() <= start);
      ghost var begins := Grounded() && AllDurable(files, durable) && Begins(segs, records, start);
      if AllDurable(files, durable) {
        NewFileDurable(files, durable, start);
      }
      if fits || begins {
        segs := Rotated(segs, start);
      }
      files, durable := WithFile(files, start, []), WithFile(durable, start, 0);
      active := Some(Active(start, 0));
      ListStart(start);
      if fits {
        RotateOk(crc, old(segs), old(files), old(durable), floor, records, contents, start);
        RotatedStarts(crc, old(segs), old(files), old(durable), old(starts), start, starts);
      }
      if begins {
        BeginOk(crc, old(segs), old(files), old(durable), records, old(starts), start, starts);
      }
    }

    /** Lists a start once, in order. */
    method ListStart(start: nat)
      modifies `starts
      ensures if start in old(starts) then starts == old(starts) else Ascending(starts) && forall s :: s in starts <==> s in old(starts) || s == start
    {
      if start !in starts {
        starts := SortedKeys((set s | s in starts) + {start});
      }
    }

    /** Goes on in another segment file; the one before it is synced first. */
    method Rotate(start: nat)
      requires Usable()
      modifies `files, `durable, `starts, `active, `segs
      ensures active == Some(Active(start, 0)) && files == WithFile(old(files), start, [])
      ensures old(Consistent() && (segs != [] ==> Last(segs).End() <= start)) ==>
                Consistent() && segs == Rotated(old(segs), start)
      ensures old(Valid() && (segs != [] ==> Last(segs).End() == start)) ==> GapFree(segs)
      ensures old(AllDurable(files, durable)) ==> AllDurable(files, durable)
      ensures old(Grounded() && Begins(segs, records, start)) ==> Grounded() && segs == Rotated(old(segs), start)
    {
      hide Consistent, Grounded, Begins, GapFree, Rotated, WithFile, AllDurable;
      Sync();
      OpenSegment(start);
    }

    /** Writes one frame at the end of the active file, and enters it in the index. */
    method WriteFrame(index: nat, payload: Bytes)
      requires active.Some? && active.value.start in files && Fits(payload)
      modifies `files, `active, `records, `segs, `contents
      ensures files == old(files)[old(active).value.start := old(files[active.value.start]) + Frame(crc, payload)]
      ensures records == old(records)[index := RecordLoc(old(active).value.start, old(active).value.bytes + HEADER_BYTES, |payload|)]
      ensures active == Some(Active(old(active).value.start, old(active).value.bytes + |Frame(crc, payload)|))
      ensures contents == old(contents)[index := payload]
      ensures old(Grounded()) ==> Grounded() && segs == WithLast(old(segs), Grown(old(Last(segs)), payload))
      ensures old(Consistent() && floor < index && segs != [] && index == Last(segs).End()) ==>
                && Consistent()
                && segs == WithLast(old(segs), Grown(old(Last(segs)), payload)) && (old(GapFree(segs)) ==> GapFree(segs))
    {
      hide Frames.Encode, Frames.AllFit, Frames.Frame, Ordered, GapFree, Stored, Synced, IndexOk, StartsOf, Listed, Filed;
      var start, at, frame := active.value.start, active.value.bytes, Frame(crc, payload);
      ghost var grounded, consistent := Grounded(), Consistent() && floor < index && segs != [] && index == Last(segs).End();
      if consistent {
        GrownOrdered(segs, payload);
        DiskGrown(crc, segs, files, durable, payload);
        IndexGrown(crc, segs, floor, records, contents, payload);
        GrownEnd(crc, segs, payload);
      }
      if grounded {
        GrowOk(crc, segs, files, durable, records, starts, index, payload, RecordLoc(start, at + HEADER_BYTES, |payload|));
      }
      if consistent || grounded {
        segs := WithLast(segs, Grown(Last(segs), payload));
      }
      contents := contents[index := payload];
      files, active, records :=
        files[start := files[start] + frame],
        Some(Active(start, at + |frame|)),
        records[index := RecordLoc(start, at + HEADER_BYTES, |payload|)];
    }

    /** The same, and what it does to reads and durability. */
    method PutFrame(index: nat, payload: Bytes)
      requires active.Some? && active.value.start in files && Fits(payload)
      modifies `files, `active, `records, `segs, `contents
      ensures files == old(files)[old(active).value.start := old(files[active.value.start]) + Frame(crc, payload)]
      ensures active.Some? && active.value.start == old(active).value.start && Usable()
      ensures records.Keys == old(records).Keys + {index} && contents == old(contents)[index := payload]
      ensures old(Grounded()) ==> Grounded() && segs == WithLast(old(segs), Grown(old(Last(segs)), payload))
      ensures old(Consistent() && floor < index && segs != [] && index == Last(segs).End()) ==>
                && Consistent()
                && segs == WithLast(old(segs), Grown(old(Last(segs)), payload)) && (old(GapFree(segs)) ==> GapFree(segs))
      ensures old(Tracks() && Readable()) ==> Tracks() && Readable()
      ensures old(AllDurable(files, durable)) ==> AllBut(files, durable, active.value.start, |Frame(crc, payload)|)
    {
      hide Frames.Encode, Frames.AllFit, Frames.Frame, Consistent, Grounded, GapFree, WithLast, Grown, AllBut, AllDurable, Points;
      if AllDurable(files, durable) {
        FrameUnsynced(files, durable, active.value.start, Frame(crc, payload));
      }
      if Tracks() && Readable() {
        PointsFurther(crc, files, records, contents, active.value.start, index, payload);
      }
      WriteFrame(index, payload);
    }

    /** The file the next frame goes to. */
    function Target(index: nat): nat
      reads `active
    {
      if NeedsRotation() then index else active.value.start
    }

    /** A rotation, if one is due. */
    method MakeRoom(index: nat)
      requires Usable()
      modifies `files, `durable, `starts, `active, `segs
      ensures active.Some? && active.value.start == old(Target(index)) && active.value.start in files
      ensures files == if old(NeedsRotation()) then WithFile(old(files), index, []) else old(files)
      ensures old(Tracks() && (NeedsRotation() ==> index !in files)) ==> Tracks()
      ensures old(Readable()) ==> Readable()
      ensures old(Consistent() && Placed(index)) ==>
                && floor < index && Consistent() && segs == (if old(NeedsRotation()) then Rotated(old(segs), index) else old(segs))
                && segs != [] && Last(segs).End() == index
      ensures old(Valid() && Aligned(index)) ==> Valid()
      ensures old(Grounded() && (NeedsRotation() ==> Begins(segs, records, index))) ==>
                && Grounded() && segs == (if old(NeedsRotation()) then Rotated(old(segs), index) else old(segs)) && segs != []
      ensures old(AllDurable(files, durable)) ==> AllDurable(files, durable)
    {
      hide Consistent, Grounded, Begins, GapFree, Rotated, AllDurable, Points;
      ghost var placed := Consistent() && Placed(index);
      if NeedsRotation() {
        if placed {
          RotatedEnd(segs, index);
        }
        Rotate(index);
        RotatedSome(old(segs), index);
        if old(Readable()) {
          PointsKept(old(files), index, records, contents);
        }
      } else {
        if Consistent() {
          HasSegment();
        }
        if Grounded() {
          GroundedSegment();
        }
      }
    }

    lemma GroundedSegment()
      requires Grounded() && active.Some?
      ensures segs != []
    {
      hide DiskOk, Listed, Filed;
    }

    /**
     Appends one record. The payload must fit its length field, or nothing changes. The frame goes
     to the end of the active file, or of the file named by the index after a rotation. In the files
     it is one record more in the last segment, or in a new one if that begins past all that is
     there. A record that is placed where a reopen looks for it extends the map; any record can be
     read back at once, unless a rotation had to reuse a file.
     */
    method Append(index: nat, payload: Bytes) returns (ok: bool)
      requires Usable()
      modifies `files, `durable, `starts, `active, `records, `segs, `contents
      ensures ok <==> |payload| < 0x1_0000_0000
      ensures ok <==> Fits(payload)
      ensures !ok ==> unchanged(this)
      ensures ok ==> Usable() && records.Keys == old(records).Keys + {index} && (old(IsNext(index)) ==> IsNext(index + 1))
      ensures ok ==> files == WrittenTo(old(files), old(Target(index)), Frame(crc, payload)) && contents == old(contents)[index := payload]
      ensures ok && old(Grounded() && (NeedsRotation() ==> Begins(segs, records, index))) ==>
                Grounded() && segs == AppendedTo(old(segs), old(NeedsRotation()), index, payload)
      ensures ok && old(Consistent() && Placed(index)) ==>
                Consistent() && segs != [] && Last(segs).End() == index + 1 && segs == AppendedTo(old(segs), old(NeedsRotation()), index, payload)
      ensures ok && old(Valid() && Aligned(index)) ==> Valid()
      ensures ok ==> active.Some? && active.value.start == old(Target(index))
      ensures ok && old(AllDurable(files, durable)) ==> AllBut(files, durable, active.value.start, |Frame(crc, payload)|)
      ensures ok && old(Tracks() && Readable() && (NeedsRotation() ==> index !in files)) ==> Tracks() && Readable()
    {
      hide Frames.Encode, Frames.AllFit, Frames.Frame, Consistent, Grounded, Begins, GapFree, Rotated, WithLast, Grown, AllBut, AllDurable, AppendedTo, Points, WithFile;
      ok := |payload| < MAX_LEN;
      if !ok {
        return;
      }
      ghost var rotates := NeedsRotation();
      MakeRoom(index);
      if rotates {
        WrittenNew(old(files), index, Frame(crc, payload));
      }
      ghost var base := segs;
      if base != [] {
        AppendedIs(old(segs), rotates, index, payload, base);
      }
      PutFrame(index, payload);
    }

    /** The highest index held. */
    method LastIndex() returns (last: Option<nat>)
      ensures last.None? <==> records.Keys == {}
      ensures last.Some? ==> last.value in records && forall k :: k in records ==> k <= last.value
    {
      last := None;
      var rest := records.Keys;
      while rest != {}
        invariant rest <= records.Keys
        invariant last.None? ==> rest == records.Keys
        invariant last.Some? ==> last.value in records && forall k :: k in records && k !in rest ==> k <= last.value
        decreases rest
      {
        var k :| k in rest;
        if last.None? || last.value < k {
          last := Some(k);
        }
        rest := rest - {k};
      }
    }

    /** Reads the records with indexes in `[lo, hi)`, in index order, through their positions in the files. */
    method ReadRange(lo: nat, hi: nat) returns (out: seq<(nat, Bytes)>)
      requires Readable()
      ensures Lists(out, contents, lo, hi)
    {
      var keys := SortedKeys(set k | k in records && lo <= k < hi);
      out := [];
      for i := 0 to |keys|
        invariant |out| == i
        invariant forall j :: 0 <= j < i ==> keys[j] in contents && out[j] == (keys[j], contents[keys[j]])
      {
        var k := keys[i];
        assert k in keys;
        var loc := records[k];
        out := out + [(k, files[loc.segmentStart][loc.payloadOffset..loc.payloadOffset + loc.len])];
      }
      forall k | k in contents && lo <= k < hi ensures (k, contents[k]) in out {
        assert k in keys;
        var j :| 0 <= j < |keys| && keys[j] == k;
        assert out[j] == (k, contents[k]);
      }
      forall j | 0 <= j < |out| ensures lo <= out[j].0 < hi {
        assert keys[j] in keys;
      }
    }

    /** Reads every record, in index order. */
    method ReadAll() returns (out: seq<(nat, Bytes)>)
      requires Readable()
      ensures ListsAll(out, contents)
    {
      hide Lists, ListsAll;
      var last := LastIndex();
      var hi := if last.Some? then last.value + 1 else 0;
      out := ReadRange(0, hi);
      RangeIsAll(out, contents, hi);
    }

    method ReopenActive()
      requires forall s :: s in starts ==> s in files
      modifies `active
      ensures active == if starts == [] then None else Some(Active(starts[|starts| - 1], |files[starts[|starts| - 1]]|))
    {
      if starts == [] {
        active := None;
      } else {
        var start := starts[|starts| - 1];
        active := Some(Active(start, |files[start]|));
      }
    }

    /** Cuts, durably, the segment that holds `index`, before its frame. */
    method CutSegment(index: nat)
      requires Consistent()
      modifies `files, `durable
      ensures CutFiles(old(files), old(durable), records, index, files, durable) && files.Keys == old(files).Keys
    {
      hide Frames.Encode, Ordered, GapFree, Stored, Synced, IndexOk, StartsOf;
      if index in records {
        ReadsExact(crc, segs, files, floor, records, contents, index);
        PastHeader(crc, segs, floor, records, contents, index);
        var start, at := records[index].segmentStart, records[index].payloadOffset - HEADER_BYTES;
        if start < index {
          files, durable := files[start := files[start][..at]], durable[start := at];
        }
      }
    }

    /** Drops every record at `index` and above. */
    method TruncateFrom(index: nat)
      requires Consistent()
      modifies `files, `durable, `starts, `active, `records, `segs, `contents
      ensures records == Below(old(records), index) && contents == Below(old(contents), index)
      ensures floor < index ==> Consistent() && (old(GapFree(segs)) ==> Valid())
      ensures index <= floor ==> records.Keys == {} && OnlyBelow(old(files), index, files)
      ensures index <= floor ==> Grounded() && Tracks() && Splits(old(segs), index, |segs|) && segs == old(segs)[..|segs|]
    {
      hide Frames.Encode, Ordered, GapFree, Stored, Synced, IndexOk, StartsOf, Truncated, CutFiles, Outside, Splits, Below, ActiveOf, OnlyBelow, Listed, Filed, DiskOk;
      ConsistentOrdered();
      ghost var m := SplitExists(segs, index);
      var kept, gone := Divide(starts, index);
      SplitStarts(segs, index, m, kept, gone);
      StartsInFiles(crc, segs, files, durable);
      CutSegment(index);
      if floor < index {
        TruncateOk(crc, segs, old(files), old(durable), floor, records, contents, index, m, gone, files, durable);
        segs := Truncated(segs, index, m);
      } else {
        UncutFiles(crc, segs, old(files), old(durable), floor, records, contents, index, gone, files, durable);
        UncutOk(crc, segs, files, durable, index, m, kept, gone);
        segs := segs[..m];
        FiledNone(Below(records, index), kept);
      }
      records, contents := Below(records, index), Below(contents, index);
      files, durable, starts := files - gone, durable - gone, kept;
      ReopenActive();
    }

    /** Deletes one file. */
    method RemoveFile(start: nat)
      modifies `files, `durable, `trail
      ensures files == old(files) - {start} && durable == old(durable) - {start} && trail == old(trail) + [Directory(files, durable)]
    {
      files, durable := files - {start}, durable - {start};
      trail := trail + [Directory(files, durable)];
    }

    /** Deletes every file but the active one whose successor starts at most one above `index`. */
    method DeleteCovered(index: nat) returns (ghost gone: set<nat>)
      requires Shaped(starts, active)
      modifies `files, `durable, `trail
      ensures files == old(files) - gone && durable == old(durable) - gone
      ensures old(trail) <= trail && OneByOne(Directory(old(files), old(durable)), starts, index, trail[|old(trail)|..])
      ensures forall i :: 0 <= i < |starts| ==> (starts[i] in gone <==> Deletable(starts, i, index))
      ensures forall s :: s in gone ==> s in starts
    {
      hide FirstOf;
      gone := {};
      ghost var before, after := Directory(files, durable), [];
      NoneDeleted(starts);
      for i := 0 to |starts|
        invariant files == old(files) - gone && durable == old(durable) - gone && forall s :: s in gone ==> s in starts
        invariant forall j :: 0 <= j < |starts| ==> (starts[j] in gone <==> j < i && Deletable(starts, j, index))
        invariant trail == old(trail) + after && |after| <= i && gone == FirstOf(starts, |after|) && (|after| < i ==> !Deletable(starts, |after|, index))
        invariant forall e :: 0 <= e < |after| ==> after[e] == Without(before, FirstOf(starts, e + 1))
      {
        if starts[i] != active.value.start {
          if i + 1 < |starts| {
            var highest := starts[i + 1] - 1;
            if highest <= index {
              NextDeleted(starts, index, |after|, i);
              RemoveFile(starts[i]);
              gone := gone + {starts[i]};
              after := after + [Directory(files, durable)];
            }
          }
        }
      }
      GoneAre(starts, index, gone);
      assert trail[|old(trail)|..] == after;
    }

    /** Keeps the starts of the active segment and of segments that still have a record. */
    method RetainStarts()
      modifies `starts
      ensures forall s :: s in starts <==>
                s in old(starts) && ((active.Some? && active.value.start == s) || HasRecord(records, s))
      ensures Ascending(old(starts)) ==> Ascending(starts)
    {
      var kept: seq<nat> := [];
      for i := 0 to |starts|
        invariant forall s :: s in kept <==>
                    s in starts[..i] && ((active.Some? && active.value.start == s) || HasRecord(records, s))
        invariant Ascending(starts) ==> Ascending(kept)
      {
        assert starts[..i + 1] == starts[..i] + [starts[i]];
        if (active.Some? && active.value.start == starts[i]) || HasRecord(records, starts[i]) {
          assert Ascending(starts) ==> forall s :: s in starts[..i] ==> s < starts[i];
          assert forall j :: 0 <= j < |kept| ==> kept[j] in starts[..i];
          kept := kept + [starts[i]];
        }
      }
      assert starts[..|starts|] == starts;
      starts := kept;
    }

    /** Forgets every record at `index` and below, then deletes the files, then forgets their starts. */
    method DropCovered(index: nat) returns (ghost gone: set<nat>)
      requires Shaped(starts, active)
      modifies `files, `durable, `starts, `records, `trail
      ensures records == Above(old(records), index)
      ensures files == old(files) - gone && durable == old(durable) - gone
      ensures old(trail) <= trail && OneByOne(Directory(old(files), old(durable)), old(starts), index, trail[|old(trail)|..])
      ensures forall i :: 0 <= i < |old(starts)| ==> (old(starts)[i] in gone <==> Deletable(old(starts), i, index))
      ensures forall s :: s in gone ==> s in old(starts)
      ensures forall s :: s in starts <==> s in old(starts) && ((active.Some? && active.value.start == s) || HasRecord(records, s))
      ensures Ascending(starts)
    {
      hide Above, Ascending, Deletable, HasRecord, OneByOne;
      records := Above(records, index);
      gone := DeleteCovered(index);
      RetainStarts();
    }

    /** Drops every record at `index` and below, and the files that hold nothing else. */
    method PurgeThrough(index: nat)
      requires Shaped(starts, active)
      modifies `files, `durable, `starts, `records, `segs, `floor, `contents, `trail
      ensures records == Above(old(records), index) && contents == Above(old(contents), index)
      ensures old(trail) <= trail && OneByOne(Directory(old(files), old(durable)), old(starts), index, trail[|old(trail)|..])
      ensures files == old(files) - Superseded(old(starts), index) && durable == old(durable) - Superseded(old(starts), index)
      ensures forall s :: s in starts <==> s in old(starts) && ((active.Some? && active.value.start == s) || HasRecord(records, s))
      ensures old(Grounded()) ==>
                && Grounded() && Purged(old(segs), index, segs) && Survivors(old(segs), Superseded(old(starts), index), segs)
                && Superseded(starts, index) == {}
      ensures old(Valid()) && old(floor) <= index ==>
                && Valid() && floor == index
                && exists d: nat :: PurgePoint(old(segs), index, d) && segs == old(segs)[d..]
    {
      hide Frames.Encode, Ordered, GapFree, Stored, Synced, IndexOk, StartsOf, Above, Ascending, Deletable, PurgePoint, HasRecord, Listed, Filed, Remaining, Purged, Survivors, Superseded, OneByOne;
      ghost var valid, grounded := Valid() && floor <= index, Grounded();
      ghost var gone := DropCovered(index);
      GoneAre(old(starts), index, gone);
      contents := Above(contents, index);
      if grounded {
        GoneIs(old(starts), index, gone);
        PurgeGrounded(crc, segs, old(files), old(durable), old(records), old(starts), index, gone, starts);
        RemainingPurged(crc, segs, old(files), old(durable), old(starts), index, gone);
        DiskOrdered(crc, segs, old(files), old(durable));
        RemainingLeft(segs, gone);
        NoneSuperseded(old(records), old(starts), index, segs, starts);
      }
      if valid {
        ghost var d := PurgePointExists(segs, index);
        StartsAscend(crc, segs);
        PurgeOk(crc, segs, old(files), old(durable), floor, old(records), old(contents), index, d, gone, starts);
        floor := index;
        if grounded {
          SameSegments(crc, Remaining(segs, gone), segs[d..], files, durable);
        }
        segs := segs[d..];
      } else if grounded {
        segs := Remaining(segs, gone);
      }
    }

    /** A consistent log is in shape. */
    lemma ValidShape()
      requires Consistent()
      ensures Shaped(starts, active)
    {
      StartsAscend(crc, segs);
    }
  }
}
