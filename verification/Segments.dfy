/**
 A directory of segment files as a list of segments, and what is read back of it when its last file
 was cut short.
 */
module Segments {
  import opened Frames

  /** One segment file: the index of its first record, and its records. */
  datatype Segment = Segment(start: nat, payloads: seq<Bytes>) {
    /** The index its next frame will be read back under. */
    function End(): nat {
      start + |payloads|
    }
  }

  /** Segments in index order, not overlapping. */
  predicate Ordered(segs: seq<Segment>) {
    && (forall i :: 0 <= i < |segs| ==> AllFit(segs[i].payloads))
    && (forall i, j :: 0 <= i < j < |segs| ==> segs[i].start < segs[j].start && segs[i].End() <= segs[j].start)
  }

  /** No index is skipped between segments. */
  ghost predicate GapFree(segs: seq<Segment>) {
    forall i, j :: 0 <= i < j < |segs| && j == i + 1 ==> segs[i].End() == segs[j].start
  }

  /** With no index skipped, only the last segment may be empty. */
  lemma OnlyLastEmpty(segs: seq<Segment>, i: nat)
    requires Ordered(segs) && GapFree(segs) && i + 1 < |segs|
    ensures segs[i].payloads != []
  {
    var j := i + 1;
    assert segs[i].End() == segs[j].start;
  }

  /** There is one file per segment. */
  predicate Named(segs: seq<Segment>, files: map<nat, Bytes>) {
    && (forall i :: 0 <= i < |segs| ==> segs[i].start in files)
    && (forall s :: s in files ==> exists i :: 0 <= i < |segs| && segs[i].start == s)
  }

  /** The files hold exactly the segments. */
  predicate Stored(crc: Checksum, segs: seq<Segment>, files: map<nat, Bytes>)
    requires Ordered(segs)
  {
    Named(segs, files) && forall i :: 0 <= i < |segs| ==> files[segs[i].start] == Encode(crc, segs[i].payloads)
  }

  /** The starts of the files, in increasing order. */
  ghost predicate Sorted(files: map<nat, Bytes>, starts: seq<nat>) {
    && (forall i, j :: 0 <= i < j < |starts| ==> starts[i] < starts[j])
    && (forall s :: s in files <==> s in starts)
  }

  /** The file has bytes after its last whole frame. */
  predicate Torn(crc: Checksum, bytes: Bytes) {
    |Encode(crc, Scan(crc, bytes))| < |bytes|
  }

  function StartsOf(segs: seq<Segment>): (starts: seq<nat>)
    ensures |starts| == |segs| && forall i :: 0 <= i < |segs| ==> starts[i] == segs[i].start
  {
    seq(|segs|, i requires 0 <= i < |segs| => segs[i].start)
  }

  /** An increasing list of starts is determined by its set. */
  lemma {:induction false} SortedUnique(a: seq<nat>, b: seq<nat>)
    requires forall i, j :: 0 <= i < j < |a| ==> a[i] < a[j]
    requires forall i, j :: 0 <= i < j < |b| ==> b[i] < b[j]
    requires forall s :: s in a <==> s in b
    ensures a == b
    decreases |a|
  {
    assert |a| > 0 ==> a[0] in b;
    assert |b| > 0 ==> b[0] in a;
    if |a| > 0 {
      assert a[0] == b[0];
      forall s ensures s in a[1..] <==> s in b[1..] {
        if s in a[1..] { var i :| 1 <= i < |a| && a[i] == s; assert s in b && s != b[0]; }
        if s in b[1..] { var i :| 1 <= i < |b| && b[i] == s; assert s in a && s != a[0]; }
      }
      SortedUnique(a[1..], b[1..]);
    }
  }

  /** A directory's sorted starts are its segments' starts. */
  lemma StartsSorted(segs: seq<Segment>, files: map<nat, Bytes>, starts: seq<nat>)
    requires Ordered(segs) && Named(segs, files) && Sorted(files, starts)
    ensures starts == StartsOf(segs)
  {
    var mine := StartsOf(segs);
    forall s ensures s in mine <==> s in starts {
      if s in files {
        var i :| 0 <= i < |segs| && segs[i].start == s;
        assert mine[i] == s;
      }
      if s in mine {
        var i :| 0 <= i < |mine| && mine[i] == s;
        assert segs[i].start in files;
      }
    }
    SortedUnique(starts, mine);
  }

  // ---------------------------------------------------------------- reopening

  /** Every file but the last is whole; the last may be cut short. */
  predicate CutShort(crc: Checksum, segs: seq<Segment>, files: map<nat, Bytes>)
    requires Ordered(segs)
  {
    && Named(segs, files)
    && (forall j :: 0 <= j < |segs| - 1 ==> files[segs[j].start] == Encode(crc, segs[j].payloads))
    && (segs != [] ==> files[segs[|segs| - 1].start] <= Encode(crc, segs[|segs| - 1].payloads))
  }

  /** The segments as they read back from a directory whose last file was cut short. */
  function Recovered(crc: Checksum, segs: seq<Segment>, files: map<nat, Bytes>): (read: seq<Segment>)
    requires segs != [] ==> segs[|segs| - 1].start in files
    ensures |read| == |segs|
  {
    if segs == [] then []
    else
      var last := segs[|segs| - 1];
      segs[..|segs| - 1] + [Segment(last.start, Scan(crc, files[last.start]))]
  }

  /** One file of such a directory: it reads back as its segment, and only the last may be torn. */
  lemma ReadSegment(crc: Checksum, segs: seq<Segment>, files: map<nat, Bytes>, i: nat)
    requires Ordered(segs) && i < |segs| && CutShort(crc, segs, files)
    ensures var file := files[segs[i].start];
            && Recovered(crc, segs, files)[i] == Segment(segs[i].start, Scan(crc, file))
            && (i < |segs| - 1 ==> !Torn(crc, file))
  {
    hide Frames.Encode, Frames.Scan;
    if i < |segs| - 1 {
      ScanEncode(crc, segs[i].payloads);
    }
  }

  /** The first `j` records of a segment lie within its first `synced` bytes. */
  predicate SyncedRecords(crc: Checksum, g: Segment, synced: nat, j: nat)
    requires AllFit(g.payloads)
  {
    j <= |g.payloads| && |Encode(crc, g.payloads[..j])| <= synced
  }

  /** A segment read back from a cut file: a prefix of its records, every synced one included. */
  lemma TornSegment(crc: Checksum, g: Segment, synced: nat, file: Bytes)
    requires AllFit(g.payloads) && file <= Encode(crc, g.payloads) && synced <= |file|
    ensures Scan(crc, file) <= g.payloads && Encode(crc, Scan(crc, file)) <= file
    ensures forall j: nat :: SyncedRecords(crc, g, synced, j) ==> j <= |Scan(crc, file)|
  {
    hide Frames.Encode, Frames.Scan;
    assert file == Encode(crc, g.payloads)[..|file|];
    TornTail(crc, g.payloads, |file|);
    ScanReencodes(crc, file);
    forall j: nat | SyncedRecords(crc, g, synced, j) ensures j <= |Scan(crc, file)| {
      KeptByPrefix(crc, g.payloads, j, |file|);
    }
  }

  lemma ShortenLast(segs: seq<Segment>, ps: seq<Bytes>)
    requires Ordered(segs) && segs != [] && ps <= segs[|segs| - 1].payloads
    ensures Ordered(segs[..|segs| - 1] + [Segment(segs[|segs| - 1].start, ps)])
  {
    var last := segs[|segs| - 1];
    forall i | 0 <= i < |ps| ensures Fits(ps[i]) {
      assert ps[i] == last.payloads[i];
    }
  }
}
