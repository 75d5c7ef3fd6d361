/**
 The in-memory side of the segmented log: the index of record positions over the segment files,
 the plain map it stands for, and how both change with an append, a truncation and a purge.
 */
module LogIndex {
  import opened Frames
  import opened Segments

  /** Where a record's payload lies: the segment file, the payload's offset in it, its length. */
  datatype RecordLoc = RecordLoc(segmentStart: nat, payloadOffset: nat, len: nat)

  // ---------------------------------------------------------------- the plain map

  /** The part of a map below an index. */
  function Below<V>(m: map<nat, V>, index: nat): (r: map<nat, V>)
    ensures forall k :: k in r <==> k in m && k < index
    ensures forall k :: k in r ==> r[k] == m[k]
  {
    m - (set k | k in m && index <= k)
  }

  /** The part of a map above a purge floor. */
  function Above<V>(m: map<nat, V>, floor: int): (r: map<nat, V>)
    ensures forall k :: k in r <==> k in m && floor < k
    ensures forall k :: k in r ==> r[k] == m[k]
  {
    m - (set k | k in m && k <= floor)
  }

  // ---------------------------------------------------------------- the index

  predicate Covers(g: Segment, k: nat) {
    g.start <= k < g.End()
  }

  function PayloadIn(g: Segment, k: nat): Bytes
    requires Covers(g, k)
  {
    g.payloads[k - g.start]
  }

  function LocIn(crc: Checksum, g: Segment, k: nat): RecordLoc
    requires AllFit(g.payloads) && Covers(g, k)
  {
    RecordLoc(g.start, OffsetOf(crc, g.payloads, k - g.start) + HEADER_BYTES, |PayloadIn(g, k)|)
  }

  /** `records` and `contents` have record `k` of segment `g`. */
  predicate Entered(crc: Checksum, g: Segment, k: nat, records: map<nat, RecordLoc>, contents: map<nat, Bytes>)
    requires AllFit(g.payloads) && Covers(g, k)
  {
    k in records && k in contents && records[k] == LocIn(crc, g, k) && contents[k] == PayloadIn(g, k)
  }

  /** `records` and `contents` hold exactly the records of `segs` above `floor`. */
  ghost predicate IndexOk(crc: Checksum, segs: seq<Segment>, floor: int, records: map<nat, RecordLoc>, contents: map<nat, Bytes>)
    requires Ordered(segs)
  {
    && records.Keys == contents.Keys
    && (forall i, k {:trigger Covers(segs[i], k)} ::
          0 <= i < |segs| && Covers(segs[i], k) && floor < k ==> Entered(crc, segs[i], k, records, contents))
    && (forall k :: k in records ==> floor < k && Covered(segs, k))
  }

  predicate Covered(segs: seq<Segment>, k: nat) {
    exists i :: 0 <= i < |segs| && Covers(segs[i], k)
  }

  /** A record of the map is a record of some segment. */
  lemma IndexHit(crc: Checksum, segs: seq<Segment>, floor: int, records: map<nat, RecordLoc>, contents: map<nat, Bytes>, k: nat) returns (i: nat)
    requires Ordered(segs) && IndexOk(crc, segs, floor, records, contents) && k in contents
    ensures i < |segs| && Covers(segs[i], k) && floor < k && contents[k] == PayloadIn(segs[i], k)
  {
    hide Frames.Encode, Frames.OffsetOf, LocIn, PayloadIn;
    assert k in records && Covered(segs, k);
    i :| 0 <= i < |segs| && Covers(segs[i], k);
    assert Entered(crc, segs[i], k, records, contents);
  }

  /** A record of a segment above the floor is a record of the map. */
  lemma IndexHas(crc: Checksum, segs: seq<Segment>, floor: int, records: map<nat, RecordLoc>, contents: map<nat, Bytes>, i: nat, k: nat)
    requires Ordered(segs) && IndexOk(crc, segs, floor, records, contents) && i < |segs| && Covers(segs[i], k) && floor < k
    ensures k in contents && contents[k] == PayloadIn(segs[i], k)
  {
    hide Frames.Encode, Frames.OffsetOf, LocIn, PayloadIn;
    assert Entered(crc, segs[i], k, records, contents);
  }

  /** The bytes at `loc` in a file are `p`. */
  predicate Holding(file: Bytes, loc: RecordLoc, p: Bytes) {
    var at := loc.payloadOffset;
    at + loc.len <= |file| && file[at..at + loc.len] == p
  }

  lemma LocReads(crc: Checksum, g: Segment, k: nat)
    requires AllFit(g.payloads) && Covers(g, k)
    ensures Holding(Encode(crc, g.payloads), LocIn(crc, g, k), PayloadIn(g, k)) && LocIn(crc, g, k).segmentStart == g.start
  {
    hide Frames.Encode, Frames.OffsetOf;
    PayloadAt(crc, g.payloads, k - g.start);
  }

  /** Every entry of the index points at the exact payload in the files. */
  lemma ReadsExact(crc: Checksum, segs: seq<Segment>, files: map<nat, Bytes>, floor: int,
                   records: map<nat, RecordLoc>, contents: map<nat, Bytes>, k: nat)
    requires Ordered(segs) && Stored(crc, segs, files) && IndexOk(crc, segs, floor, records, contents)
    requires k in records
    ensures var loc := records[k];
            loc.segmentStart in files && Holding(files[loc.segmentStart], loc, contents[k])
  {
    hide Frames.Encode, Frames.OffsetOf, LocIn, PayloadIn, Holding;
    assert Covered(segs, k);
    var i :| 0 <= i < |segs| && Covers(segs[i], k);
    assert Entered(crc, segs[i], k, records, contents);
    LocReads(crc, segs[i], k);
  }

  // ---------------------------------------------------------------- any directory

  /** Each entry of the index points at its record in the files. */
  predicate Points(files: map<nat, Bytes>, records: map<nat, RecordLoc>, contents: map<nat, Bytes>) {
    records.Keys == contents.Keys &&
    forall k :: k in records ==> records[k].segmentStart in files && Holding(files[records[k].segmentStart], records[k], contents[k])
  }

  function RecordsOf(g: Segment): (m: map<nat, Bytes>)
    ensures forall k :: k in m <==> Covers(g, k)
    ensures forall k :: k in m ==> m[k] == PayloadIn(g, k)
  {
    map k: nat | g.start <= k < g.End() && Covers(g, k) :: PayloadIn(g, k)
  }

  /** What is read of segments that may claim the same indexes: the later file wins. */
  function Overlay(segs: seq<Segment>): map<nat, Bytes> {
    if segs == [] then map[] else Overlay(segs[..|segs| - 1]) + RecordsOf(segs[|segs| - 1])
  }

  /** The record at an index is that of the last segment that covers it. */
  lemma {:induction false} OverlayAt(segs: seq<Segment>, i: nat, k: nat)
    requires i < |segs| && Covers(segs[i], k) && forall j :: i < j < |segs| ==> !Covers(segs[j], k)
    ensures k in Overlay(segs) && Overlay(segs)[k] == PayloadIn(segs[i], k)
    decreases |segs|
  {
    var n := |segs| - 1;
    if i < n {
      assert segs[..n][i] == segs[i];
      OverlayAt(segs[..n], i, k);
    }
  }

  lemma {:induction false} OverlayCovered(segs: seq<Segment>, k: nat)
    ensures k in Overlay(segs) <==> Covered(segs, k)
    decreases |segs|
  {
    if segs != [] {
      var n := |segs| - 1;
      OverlayCovered(segs[..n], k);
      assert forall i :: 0 <= i < n ==> segs[..n][i] == segs[i];
      if i :| 0 <= i < |segs| && Covers(segs[i], k) {
        assert i < n ==> Covers(segs[..n][i], k);
      }
      if i :| 0 <= i < n && Covers(segs[..n][i], k) {
        assert Covers(segs[i], k);
      }
    }
  }

  /** Segments that claim no index twice are read as the index over them says. */
  lemma OverlayOrdered(crc: Checksum, segs: seq<Segment>, records: map<nat, RecordLoc>, contents: map<nat, Bytes>)
    requires Ordered(segs) && IndexOk(crc, segs, -1, records, contents)
    ensures contents == Overlay(segs)
  {
    forall k | k in contents ensures k in Overlay(segs) && Overlay(segs)[k] == contents[k] {
      var i := IndexHit(crc, segs, -1, records, contents, k);
      OverlayAt(segs, i, k);
    }
    forall k | k in Overlay(segs) ensures k in contents {
      OverlayCovered(segs, k);
      var i :| 0 <= i < |segs| && Covers(segs[i], k);
      IndexHas(crc, segs, -1, records, contents, i, k);
    }
    assert contents.Keys == Overlay(segs).Keys;
  }

  // ---------------------------------------------------------------- append

  function Last(segs: seq<Segment>): Segment
    requires segs != []
  {
    segs[|segs| - 1]
  }

  function WithLast(segs: seq<Segment>, g: Segment): seq<Segment>
    requires segs != []
  {
    segs[..|segs| - 1] + [g]
  }

  function Grown(g: Segment, p: Bytes): Segment {
    Segment(g.start, g.payloads + [p])
  }

  function EndLoc(crc: Checksum, g: Segment, p: Bytes): RecordLoc
    requires AllFit(g.payloads)
  {
    RecordLoc(g.start, |Encode(crc, g.payloads)| + HEADER_BYTES, |p|)
  }

  /** Growing a segment keeps its entries and adds one at its end. */
  lemma GrownEntered(crc: Checksum, g: Segment, p: Bytes, k: nat, records: map<nat, RecordLoc>, contents: map<nat, Bytes>)
    requires AllFit(g.payloads) && Fits(p) && Covers(Grown(g, p), k)
    requires Covers(g, k) ==> Entered(crc, g, k, records, contents)
    ensures AllFit(Grown(g, p).payloads)
    ensures Entered(crc, Grown(g, p), k, records[g.End() := EndLoc(crc, g, p)], contents[g.End() := p])
  {
    hide Frames.Encode;
    var j := k - g.start;
    if j < |g.payloads| {
      assert (g.payloads + [p])[..j] == g.payloads[..j];
    } else {
      assert (g.payloads + [p])[..j] == g.payloads;
    }
  }

  /** Appending to the last segment appends to the map. */
  lemma IndexGrown(crc: Checksum, segs: seq<Segment>, floor: int, records: map<nat, RecordLoc>,
                   contents: map<nat, Bytes>, p: Bytes)
    requires Ordered(segs) && segs != [] && IndexOk(crc, segs, floor, records, contents)
    requires Fits(p) && floor < Last(segs).End()
    requires Ordered(WithLast(segs, Grown(Last(segs), p)))
    ensures var last := Last(segs);
            IndexOk(crc, WithLast(segs, Grown(last, p)), floor,
                    records[last.End() := EndLoc(crc, last, p)], contents[last.End() := p])
  {
    hide Frames.Encode, Frames.OffsetOf, LocIn, PayloadIn, EndLoc, Frames.Fits;
    var n, last := |segs| - 1, Last(segs);
    var index, more := last.End(), WithLast(segs, Grown(last, p));
    var records1, contents1 := records[index := EndLoc(crc, last, p)], contents[index := p];
    forall i, k | 0 <= i <= n && Covers(more[i], k) && floor < k ensures Entered(crc, more[i], k, records1, contents1) {
      if i == n {
        assert Covers(segs[n], k) ==> Entered(crc, last, k, records, contents);
        GrownEntered(crc, last, p, k, records, contents);
      } else {
        assert Covers(segs[i], k) && k != index;
      }
    }
    forall k | k in records1 ensures Covered(more, k) {
      GrownCovers(segs, p, k);
    }
  }

  lemma GrownCovers(segs: seq<Segment>, p: Bytes, k: nat)
    requires segs != [] && (Covered(segs, k) || k == Last(segs).End())
    ensures Covered(WithLast(segs, Grown(Last(segs), p)), k)
  {
    var n, more := |segs| - 1, WithLast(segs, Grown(Last(segs), p));
    if k == Last(segs).End() {
      assert Covers(more[n], k);
    } else {
      var i :| 0 <= i < |segs| && Covers(segs[i], k);
      assert Covers(more[i], k);
    }
  }

  /** A new, empty segment changes nothing in the map. */
  lemma IndexPushed(crc: Checksum, segs: seq<Segment>, floor: int, records: map<nat, RecordLoc>,
                    contents: map<nat, Bytes>, start: nat)
    requires Ordered(segs) && IndexOk(crc, segs, floor, records, contents)
    requires Ordered(segs + [Segment(start, [])])
    ensures IndexOk(crc, segs + [Segment(start, [])], floor, records, contents)
  {
    hide Entered;
    var more := segs + [Segment(start, [])];
    forall i, k | 0 <= i < |more| && Covers(more[i], k) && floor < k ensures Entered(crc, more[i], k, records, contents) {
      assert i < |segs| && more[i] == segs[i];
    }
    forall k | k in records ensures Covered(more, k) {
      var i :| 0 <= i < |segs| && Covers(segs[i], k);
      assert Covers(more[i], k);
    }
  }

  // ---------------------------------------------------------------- truncate

  /** The part of a segment below an index. */
  function CutAt(g: Segment, index: nat): Segment
    requires g.start <= index
  {
    if index < g.End() then Segment(g.start, g.payloads[..index - g.start]) else g
  }

  /** The segments that start below `index` are the first `m`. */
  predicate Splits(segs: seq<Segment>, index: nat, m: nat) {
    m <= |segs| && forall i :: 0 <= i < |segs| ==> (segs[i].start < index <==> i < m)
  }

  /** The segments with every record at `index` and above dropped. */
  function Truncated(segs: seq<Segment>, index: nat, m: nat): seq<Segment>
    requires Splits(segs, index, m)
  {
    if m == 0 then [] else WithLast(segs[..m], CutAt(segs[m - 1], index))
  }

  lemma CutEntered(crc: Checksum, g: Segment, index: nat, k: nat, records: map<nat, RecordLoc>, contents: map<nat, Bytes>)
    requires AllFit(g.payloads) && g.start <= index && Covers(g, k) && k < index
    requires Entered(crc, g, k, records, contents)
    ensures AllFit(CutAt(g, index).payloads) && Covers(CutAt(g, index), k)
    ensures Entered(crc, CutAt(g, index), k, Below(records, index), Below(contents, index))
  {
    hide Frames.Encode;
    if index < g.End() {
      assert g.payloads[..index - g.start][..k - g.start] == g.payloads[..k - g.start];
    }
  }

  lemma {:induction false} TruncatedOrdered(segs: seq<Segment>, index: nat, m: nat)
    requires Ordered(segs) && Splits(segs, index, m)
    ensures Ordered(Truncated(segs, index, m))
  {
    if m > 0 {
      var g := CutAt(segs[m - 1], index);
      forall i | 0 <= i < |g.payloads| ensures Fits(g.payloads[i]) {
        assert g.payloads[i] == segs[m - 1].payloads[i];
      }
    }
  }

  /** Truncating the segments truncates the map. */
  lemma IndexTruncated(crc: Checksum, segs: seq<Segment>, floor: int, records: map<nat, RecordLoc>,
                       contents: map<nat, Bytes>, index: nat, m: nat)
    requires Ordered(segs) && IndexOk(crc, segs, floor, records, contents) && Splits(segs, index, m)
    requires Ordered(Truncated(segs, index, m))
    ensures IndexOk(crc, Truncated(segs, index, m), floor, Below(records, index), Below(contents, index))
  {
    hide Frames.Encode, Frames.OffsetOf, Frames.Fits, LocIn, PayloadIn;
    var fewer, records1, contents1 := Truncated(segs, index, m), Below(records, index), Below(contents, index);
    assert records1.Keys == contents1.Keys;
    forall i, k | 0 <= i < |fewer| && Covers(fewer[i], k) && floor < k ensures Entered(crc, fewer[i], k, records1, contents1) {
      TruncatedBelow(segs, index, m, i, k);
      assert Covers(segs[i], k);
      if i == m - 1 {
        CutEntered(crc, segs[i], index, k, records, contents);
      }
    }
    forall k | k in records1 ensures Covered(fewer, k) {
      TruncatedCovers(segs, index, m, k);
    }
  }

  /** What a truncated segment covers was covered, and lies below the cut. */
  lemma TruncatedBelow(segs: seq<Segment>, index: nat, m: nat, i: nat, k: nat)
    requires Ordered(segs) && Splits(segs, index, m) && i < |Truncated(segs, index, m)|
    requires Covers(Truncated(segs, index, m)[i], k)
    ensures i < m && Covers(segs[i], k) && k < index && (i < m - 1 ==> Truncated(segs, index, m)[i] == segs[i])
  {
    if i < m - 1 {
      assert segs[i].End() <= segs[m - 1].start < index;
    }
  }

  lemma TruncatedCovers(segs: seq<Segment>, index: nat, m: nat, k: nat)
    requires Splits(segs, index, m) && Covered(segs, k) && k < index
    ensures Covered(Truncated(segs, index, m), k)
  {
    var i :| 0 <= i < |segs| && Covers(segs[i], k);
    assert segs[i].start < index;
    assert Covers(Truncated(segs, index, m)[i], k);
  }

  /** Above the floor, the index knows the segment that holds `index`, and it is the last one that stays. */
  lemma CutLoc(crc: Checksum, segs: seq<Segment>, floor: int, records: map<nat, RecordLoc>, contents: map<nat, Bytes>, index: nat, m: nat)
    requires Ordered(segs) && IndexOk(crc, segs, floor, records, contents) && Splits(segs, index, m) && floor < index
    ensures index in records && records[index].segmentStart < index <==> m > 0 && Covers(segs[m - 1], index)
    ensures m > 0 && Covers(segs[m - 1], index) ==> records[index] == LocIn(crc, segs[m - 1], index)
  {
    hide Frames.Encode, Frames.OffsetOf, PayloadIn;
    if m > 0 && Covers(segs[m - 1], index) {
      assert Entered(crc, segs[m - 1], index, records, contents);
    } else if index in records {
      assert Covered(segs, index);
      assert forall i :: 0 <= i < m - 1 ==> segs[i].End() <= segs[m - 1].start;
      var i :| 0 <= i < |segs| && Covers(segs[i], index);
      assert Entered(crc, segs[i], index, records, contents);
    }
  }

  // ---------------------------------------------------------------- purge

  /** Dropping a prefix of segments that lies at or below a new floor purges the map. */
  lemma IndexPurged(crc: Checksum, segs: seq<Segment>, floor: int, records: map<nat, RecordLoc>,
                    contents: map<nat, Bytes>, index: int, d: nat)
    requires Ordered(segs) && IndexOk(crc, segs, floor, records, contents)
    requires d <= |segs| && floor <= index && forall i :: 0 <= i < d ==> segs[i].End() <= index + 1
    requires Ordered(segs[d..])
    ensures IndexOk(crc, segs[d..], index, Above(records, index), Above(contents, index))
  {
    hide Frames.Encode, Frames.OffsetOf, Frames.Fits, LocIn, PayloadIn;
    var fewer, records1, contents1 := segs[d..], Above(records, index), Above(contents, index);
    assert records1.Keys == contents1.Keys;
    forall i, k | 0 <= i < |fewer| && Covers(fewer[i], k) && index < k ensures Entered(crc, fewer[i], k, records1, contents1) {
      assert Covers(segs[d + i], k);
    }
    forall k | k in records1 ensures Covered(fewer, k) {
      var i :| 0 <= i < |segs| && Covers(segs[i], k);
      assert Covers(fewer[i - d], k);
    }
  }
}
