/**
 The directory side of the segmented log: what the files hold and how much of them is durable,
 through growth, rotation, truncation and purge, and what a crash may leave of them.
 */
module LogDisk {
  import opened Frames
  import opened Segments
  import opened LogIndex

  /** Every file but the last is durable as a whole. */
  predicate Synced(segs: seq<Segment>, files: map<nat, Bytes>, durable: map<nat, nat>) {
    && durable.Keys == files.Keys
    && (forall s :: s in files ==> durable[s] <= |files[s]|)
    && (forall i :: 0 <= i < |segs| - 1 ==> segs[i].start in files && durable[segs[i].start] == |files[segs[i].start]|)
  }

  predicate AllDurable(files: map<nat, Bytes>, durable: map<nat, nat>) {
    durable.Keys == files.Keys && forall s :: s in files ==> durable[s] == |files[s]|
  }

  /** The files hold exactly the segments. */
  predicate DiskOk(crc: Checksum, segs: seq<Segment>, files: map<nat, Bytes>, durable: map<nat, nat>) {
    Ordered(segs) && Stored(crc, segs, files) && Synced(segs, files, durable)
  }

  // ---------------------------------------------------------------- growth

  lemma GrownOrdered(segs: seq<Segment>, p: Bytes)
    requires segs != [] && Ordered(segs) && Fits(p)
    ensures Ordered(WithLast(segs, Grown(Last(segs), p)))
    ensures GapFree(segs) ==> GapFree(WithLast(segs, Grown(Last(segs), p)))
  {
  }

  /** Replacing the bytes of the last file keeps the file names and the other files' durability. */
  lemma LastReplaced(segs: seq<Segment>, files: map<nat, Bytes>, durable: map<nat, nat>, g: Segment, file: Bytes, d: nat)
    requires segs != [] && Ordered(segs) && Named(segs, files) && Synced(segs, files, durable)
    requires g.start == Last(segs).start && d <= |file|
    ensures Named(WithLast(segs, g), files[g.start := file])
    ensures Synced(WithLast(segs, g), files[g.start := file], durable[g.start := d])
  {
    assert forall i :: 0 <= i < |segs| - 1 ==> segs[i].start != g.start;
    hide Named, Ordered, Synced;
    LastNamed(segs, files, g, file);
    LastSynced(segs, files, durable, g, file, d);
  }

  lemma LastSynced(segs: seq<Segment>, files: map<nat, Bytes>, durable: map<nat, nat>, g: Segment, file: Bytes, d: nat)
    requires segs != [] && Synced(segs, files, durable) && d <= |file|
    requires forall i :: 0 <= i < |segs| - 1 ==> segs[i].start != g.start
    ensures Synced(WithLast(segs, g), files[g.start := file], durable[g.start := d])
  {
    var segs1, files1, durable1 := WithLast(segs, g), files[g.start := file], durable[g.start := d];
    forall i | 0 <= i < |segs1| - 1
      ensures segs1[i].start in files1 && durable1[segs1[i].start] == |files1[segs1[i].start]| {
      assert segs1[i] == segs[i];
    }
  }

  lemma LastNamed(segs: seq<Segment>, files: map<nat, Bytes>, g: Segment, file: Bytes)
    requires segs != [] && Named(segs, files) && g.start == Last(segs).start
    ensures Named(WithLast(segs, g), files[g.start := file])
  {
    var segs1 := WithLast(segs, g);
    assert forall i :: 0 <= i < |segs| ==> segs1[i].start == segs[i].start;
  }

  lemma LastStored(crc: Checksum, segs: seq<Segment>, files: map<nat, Bytes>, g: Segment)
    requires segs != [] && Ordered(segs) && Stored(crc, segs, files)
    requires g.start == Last(segs).start && AllFit(g.payloads)
    requires Ordered(WithLast(segs, g)) && Named(WithLast(segs, g), files[g.start := Encode(crc, g.payloads)])
    ensures Stored(crc, WithLast(segs, g), files[g.start := Encode(crc, g.payloads)])
  {
    hide Frames.Encode, Named;
    var segs1 := WithLast(segs, g);
    assert forall i :: 0 <= i < |segs| - 1 ==> segs1[i] == segs[i] && segs[i].start != g.start;
  }

  /** A frame written at the end of the last file. */
  lemma DiskGrown(crc: Checksum, segs: seq<Segment>, files: map<nat, Bytes>, durable: map<nat, nat>, p: Bytes)
    requires DiskOk(crc, segs, files, durable) && segs != [] && Fits(p)
    ensures var last := Last(segs);
            DiskOk(crc, WithLast(segs, Grown(last, p)), files[last.start := files[last.start] + Frame(crc, p)], durable)
  {
    var last := Last(segs);
    var d := durable[last.start];
    EncodeSnoc(crc, last.payloads, p);
    GrownOrdered(segs, p);
    hide Frames.Encode, Frames.Frame, Ordered, GapFree, Named, Synced;
    LastReplaced(segs, files, durable, Grown(last, p), files[last.start] + Frame(crc, p), d);
    LastStored(crc, segs, files, Grown(last, p));
    assert durable[last.start := d] == durable;
  }

  // ---------------------------------------------------------------- rotation

  lemma RotatedOrdered(segs: seq<Segment>, start: nat)
    requires Ordered(segs)
    requires segs != [] ==> Last(segs).End() <= start && Last(segs).start < start
    ensures Ordered(segs + [Segment(start, [])])
    ensures forall i :: 0 <= i < |segs| ==> segs[i].start < start
  {
    var more := segs + [Segment(start, [])];
    assert forall i :: 0 <= i < |segs| ==> segs[i].End() <= start;
    assert forall i :: 0 <= i < |segs| ==> more[i] == segs[i];
  }

  lemma RotatedGapFree(segs: seq<Segment>, start: nat)
    requires GapFree(segs) && (segs != [] ==> start == Last(segs).End())
    ensures GapFree(segs + [Segment(start, [])])
  {
  }

  lemma RotatedNamed(segs: seq<Segment>, files: map<nat, Bytes>, start: nat)
    requires Named(segs, files)
    ensures Named(segs + [Segment(start, [])], files[start := []])
  {
    var more := segs + [Segment(start, [])];
    assert more[|segs|].start == start;
    assert forall i :: 0 <= i < |segs| ==> more[i] == segs[i];
  }

  lemma RotatedSynced(segs: seq<Segment>, files: map<nat, Bytes>, durable: map<nat, nat>, start: nat)
    requires Named(segs, files) && Synced(segs, files, durable)
    requires segs != [] ==> durable[Last(segs).start] == |files[Last(segs).start]|
    requires forall i :: 0 <= i < |segs| ==> segs[i].start < start
    ensures Synced(segs + [Segment(start, [])], files[start := []], durable[start := 0])
  {
    var more := segs + [Segment(start, [])];
    assert forall i :: 0 <= i < |segs| ==> more[i] == segs[i];
  }

  lemma EncodeNone(crc: Checksum)
    ensures Encode(crc, []) == []
  {
  }

  /** A new, empty last file, once the one before it is durable. */
  lemma DiskRotated(crc: Checksum, segs: seq<Segment>, files: map<nat, Bytes>, durable: map<nat, nat>, start: nat)
    requires DiskOk(crc, segs, files, durable)
    requires segs != [] ==> Last(segs).End() <= start && Last(segs).start < start
    requires segs != [] ==> durable[Last(segs).start] == |files[Last(segs).start]|
    ensures DiskOk(crc, segs + [Segment(start, [])], files[start := []], durable[start := 0])
  {
    hide Frames.Encode;
    RotatedOrdered(segs, start);
    RotatedSynced(segs, files, durable, start);
    hide Ordered, GapFree, Synced, Named;
    RotatedNamed(segs, files, start);
    var more, files1 := segs + [Segment(start, [])], files[start := []];
    forall i | 0 <= i < |more| ensures files1[more[i].start] == Encode(crc, more[i].payloads) {
      if i < |segs| {
        assert more[i] == segs[i];
      } else {
        EncodeNone(crc);
      }
    }
  }

  /** Syncing the last file. */
  lemma DiskSynced(crc: Checksum, segs: seq<Segment>, files: map<nat, Bytes>, durable: map<nat, nat>)
    requires DiskOk(crc, segs, files, durable) && segs != []
    ensures Last(segs).start in files && files[Last(segs).start] == Encode(crc, Last(segs).payloads)
    ensures DiskOk(crc, segs, files, durable[Last(segs).start := |files[Last(segs).start]|])
    ensures AllDurable(files, durable[Last(segs).start := |files[Last(segs).start]|])
  {
    assert Last(segs).start in files;
    hide Frames.Encode, Ordered, GapFree;
    OthersDurable(segs, files, durable);
    hide Stored, Named;
    LastDurable(segs, files, durable);
  }

  /** Every file but the last segment's is durable. */
  lemma OthersDurable(segs: seq<Segment>, files: map<nat, Bytes>, durable: map<nat, nat>)
    requires segs != [] && Named(segs, files) && Synced(segs, files, durable)
    ensures forall s :: s in files ==> s == Last(segs).start || durable[s] == |files[s]|
  {
    forall s | s in files ensures s == Last(segs).start || durable[s] == |files[s]| {
      var i :| 0 <= i < |segs| && segs[i].start == s;
    }
  }

  lemma LastDurable(segs: seq<Segment>, files: map<nat, Bytes>, durable: map<nat, nat>)
    requires segs != [] && Synced(segs, files, durable) && Last(segs).start in files
    ensures Synced(segs, files, durable[Last(segs).start := |files[Last(segs).start]|])
  {
  }

  /** The next segment's file does not exist yet. */
  lemma NextIsNew(crc: Checksum, segs: seq<Segment>, files: map<nat, Bytes>, durable: map<nat, nat>, start: nat)
    requires DiskOk(crc, segs, files, durable)
    requires segs != [] ==> Last(segs).End() <= start && Last(segs).start < start
    ensures start !in files && start !in StartsOf(segs)
  {
    hide Frames.Encode, Synced;
  }

  // ---------------------------------------------------------------- deletion

  /** A log directory at some moment: its files, and how much of each is durable. */
  datatype Directory = Directory(files: map<nat, Bytes>, durable: map<nat, nat>)

  function Without(d: Directory, gone: set<nat>): Directory {
    Directory(d.files - gone, d.durable - gone)
  }

  /** `gone` is the starts of the segments outside `[lo, hi)`. */
  predicate Outside(segs: seq<Segment>, gone: set<nat>, lo: nat, hi: nat) {
    lo <= hi <= |segs| && forall i :: 0 <= i < |segs| ==> (segs[i].start in gone <==> !(lo <= i < hi))
  }

  lemma SlicedOrdered(segs: seq<Segment>, lo: nat, hi: nat)
    requires Ordered(segs) && lo <= hi <= |segs|
    ensures Ordered(segs[lo..hi])
  {
  }

  lemma SlicedGapFree(segs: seq<Segment>, lo: nat, hi: nat)
    requires GapFree(segs) && lo <= hi <= |segs|
    ensures GapFree(segs[lo..hi])
  {
    var fewer := segs[lo..hi];
    forall i, j | 0 <= i < j < |fewer| && j == i + 1 ensures fewer[i].End() == fewer[j].start {
      assert segs[lo + i].End() == segs[lo + j].start;
    }
  }

  lemma SlicedNamed(segs: seq<Segment>, files: map<nat, Bytes>, gone: set<nat>, lo: nat, hi: nat)
    requires Named(segs, files) && Outside(segs, gone, lo, hi)
    ensures Named(segs[lo..hi], files - gone)
  {
    var fewer, files1 := segs[lo..hi], files - gone;
    forall s | s in files1 ensures exists i :: 0 <= i < |fewer| && fewer[i].start == s {
      var i :| 0 <= i < |segs| && segs[i].start == s;
      assert fewer[i - lo].start == s;
    }
  }

  lemma SlicedSynced(segs: seq<Segment>, files: map<nat, Bytes>, durable: map<nat, nat>, gone: set<nat>, lo: nat, hi: nat)
    requires Synced(segs, files, durable) && Outside(segs, gone, lo, hi)
    ensures Synced(segs[lo..hi], files - gone, durable - gone)
  {
    var fewer := segs[lo..hi];
    assert forall i :: 0 <= i < |fewer| ==> fewer[i] == segs[lo + i] && segs[lo + i].start !in gone;
  }

  /** Deleting the files outside a range of segments leaves that range. */
  lemma DiskSliced(crc: Checksum, segs: seq<Segment>, files: map<nat, Bytes>, durable: map<nat, nat>, gone: set<nat>, lo: nat, hi: nat)
    requires DiskOk(crc, segs, files, durable) && Outside(segs, gone, lo, hi)
    ensures DiskOk(crc, segs[lo..hi], files - gone, durable - gone)
  {
    hide Frames.Encode, Ordered, GapFree, Synced, Named;
    SlicedOrdered(segs, lo, hi);
    SlicedNamed(segs, files, gone, lo, hi);
    SlicedSynced(segs, files, durable, gone, lo, hi);
    var fewer, files1 := segs[lo..hi], files - gone;
    forall i | 0 <= i < |fewer| ensures fewer[i].start in files1 && files1[fewer[i].start] == Encode(crc, fewer[i].payloads) {
      assert fewer[i] == segs[lo + i] && segs[lo + i].start !in gone;
    }
  }

  /** The first `j` records of a file end where the frame of record `j` starts. */
  lemma CutFile(crc: Checksum, ps: seq<Bytes>, j: nat)
    requires AllFit(ps) && j <= |ps|
    ensures AllFit(ps[..j]) && OffsetOf(crc, ps, j) <= |Encode(crc, ps)|
    ensures Encode(crc, ps)[..OffsetOf(crc, ps, j)] == Encode(crc, ps[..j])
  {
    hide Frames.Encode;
    EncodeConcat(crc, ps[..j], ps[j..]);
    assert ps == ps[..j] + ps[j..];
  }

  /** The last file cut, durably, at the frame of record `index`. */
  lemma DiskCut(crc: Checksum, segs: seq<Segment>, files: map<nat, Bytes>, durable: map<nat, nat>, index: nat)
    requires DiskOk(crc, segs, files, durable) && segs != [] && Covers(Last(segs), index)
    ensures var last := Last(segs);
            var at := OffsetOf(crc, last.payloads, index - last.start);
            && at <= |files[last.start]|
            && DiskOk(crc, WithLast(segs, CutAt(last, index)), files[last.start := files[last.start][..at]], durable[last.start := at])
  {
    var last := Last(segs);
    var g, at := CutAt(last, index), OffsetOf(crc, last.payloads, index - last.start);
    CutOrdered(segs, index);
    CutFile(crc, last.payloads, index - last.start);
    hide Frames.Encode, Frames.OffsetOf, Ordered, GapFree, Named, Synced;
    LastReplaced(segs, files, durable, g, files[last.start][..at], at);
    LastStored(crc, segs, files, g);
  }

  lemma CutOrdered(segs: seq<Segment>, index: nat)
    requires segs != [] && Ordered(segs) && Covers(Last(segs), index)
    ensures Ordered(WithLast(segs, CutAt(Last(segs), index)))
  {
    ShortenLast(segs, Last(segs).payloads[..index - Last(segs).start]);
  }

  /** Truncation opens no gap. */
  lemma TruncatedGapFree(segs: seq<Segment>, index: nat, m: nat)
    requires GapFree(segs) && Splits(segs, index, m)
    ensures GapFree(Truncated(segs, index, m))
  {
    SlicedGapFree(segs, 0, m);
    assert segs[0..m] == segs[..m];
  }

  lemma UpdateMinus<V>(m: map<nat, V>, gone: set<nat>, k: nat, v: V)
    requires k in m && k !in gone
    ensures (m - gone)[k := v] == m[k := v] - gone
  {
  }

  lemma SplitKept(segs: seq<Segment>, gone: set<nat>, index: nat, m: nat)
    requires Ordered(segs) && Splits(segs, index, m) && Outside(segs, gone, 0, m) && m > 0
    ensures AllFit(segs[m - 1].payloads) && segs[m - 1].start !in gone && segs[m - 1].start < index
    ensures segs[..m] != [] && Last(segs[..m]) == segs[m - 1]
    ensures Truncated(segs, index, m) == WithLast(segs[..m], CutAt(segs[m - 1], index))
    ensures !Covers(segs[m - 1], index) ==> Truncated(segs, index, m) == segs[..m]
  {
  }

  /** The files of a truncated log: later segments deleted, and the one that holds `index` cut before it. */
  lemma DiskTruncated(crc: Checksum, segs: seq<Segment>, files: map<nat, Bytes>, durable: map<nat, nat>, gone: set<nat>, index: nat, m: nat)
    requires DiskOk(crc, segs, files, durable) && Splits(segs, index, m) && Outside(segs, gone, 0, m)
    ensures m > 0 && Covers(segs[m - 1], index) ==>
              var g := segs[m - 1];
              var at := OffsetOf(crc, g.payloads, index - g.start);
              && g.start in files && at <= |files[g.start]|
              && DiskOk(crc, Truncated(segs, index, m), files[g.start := files[g.start][..at]] - gone, durable[g.start := at] - gone)
    ensures !(m > 0 && Covers(segs[m - 1], index)) ==>
              DiskOk(crc, Truncated(segs, index, m), files - gone, durable - gone)
  {
    assert m <= |segs|;
    hide Frames.Encode, Frames.OffsetOf, Frames.AllFit, Ordered, GapFree, Stored, Synced, Outside, Splits, WithLast;
    DiskSliced(crc, segs, files, durable, gone, 0, m);
    var kept, files1, durable1 := segs[..m], files - gone, durable - gone;
    assert segs[0..m] == kept;
    if m > 0 {
      SplitKept(segs, gone, index, m);
      if Covers(segs[m - 1], index) {
        var g := segs[m - 1];
        DiskSynced(crc, kept, files1, durable1);
        DiskCut(crc, kept, files1, durable1, index);
        var at := OffsetOf(crc, g.payloads, index - g.start);
        SameKeysOnDisk(crc, segs, files, durable);
        UpdateMinus(files, gone, g.start, files[g.start][..at]);
        UpdateMinus(durable, gone, g.start, at);
      }
    }
  }

  lemma SameKeysOnDisk(crc: Checksum, segs: seq<Segment>, files: map<nat, Bytes>, durable: map<nat, nat>)
    requires DiskOk(crc, segs, files, durable)
    ensures files.Keys == durable.Keys
  {
  }
}
