/**
 The write-ahead log as bytes: commands encoded into the segmented log. It carries the abstract
 image of the log that the recovery proofs are about, and refines every step taken on it.
 */
module Wals {
  import opened Outcome
  import opened Commands
  import opened Frames
  import opened Segments
  import opened LogIndex
  import opened LogDisk
  import opened SegmentedLogs
  import opened LogRecovery
  import S = Standalone

  datatype WalEntry = WalEntry(seqNo: nat, command: Command)

  /** The number a record carries. */
  function NumberOf(c: Codec<WalEntry>, p: Bytes): nat {
    var e := c.decode(p);
    if e.Some? then e.value.seqNo else 0
  }

  /** The record is an entry of the image, under the number it carries. */
  predicate IsRecord(c: Codec<WalEntry>, p: Bytes, w: S.WalImage) {
    var e := c.decode(p);
    e.Some? && e.value.seqNo in w.entries && w.entries[e.value.seqNo] == e.value.command
  }

  ghost predicate Recorded(c: Codec<WalEntry>, segs: seq<Segment>, e: WalEntry) {
    exists i, k :: 0 <= i < |segs| && Covers(segs[i], k) && c.decode(PayloadIn(segs[i], k)) == Some(e)
  }

  /** Numbers grow with the indexes their records are read back under, and stay below the names of later files. */
  ghost predicate InSequence(c: Codec<WalEntry>, segs: seq<Segment>) {
    && (forall i, k, i', k' {:trigger Covers(segs[i], k), Covers(segs[i'], k')} ::
          0 <= i < |segs| && 0 <= i' < |segs| && Covers(segs[i], k) && Covers(segs[i'], k') && k < k' ==>
            NumberOf(c, PayloadIn(segs[i], k)) < NumberOf(c, PayloadIn(segs[i'], k')))
    && (forall i, k, j {:trigger Covers(segs[i], k), segs[j]} ::
          0 <= i < j < |segs| && Covers(segs[i], k) ==> NumberOf(c, PayloadIn(segs[i], k)) < segs[j].start)
  }

  /**
   `w` is what the segments hold, decoded: each record under the number it carries, which past a gap
   is not the index it is read back under.
   */
  ghost predicate ImageOf(c: Codec<WalEntry>, segs: seq<Segment>, w: S.WalImage) {
    && (forall i, k {:trigger Covers(segs[i], k)} :: 0 <= i < |segs| && Covers(segs[i], k) ==> IsRecord(c, PayloadIn(segs[i], k), w))
    && (forall n :: n in w.entries ==> Recorded(c, segs, WalEntry(n, w.entries[n])))
    && InSequence(c, segs)
    && w.next == if segs == [] then None else Some(Last(segs).End())
  }

  /** All numbers of the image are below `n`. */
  predicate AllBelow(w: S.WalImage, n: nat) {
    forall k :: k in w.entries ==> k < n
  }

  // ---------------------------------------------------------------- append

  /** One record more, with a number above all others, in the last segment. */
  lemma ImageGrown(c: Codec<WalEntry>, segs: seq<Segment>, w: S.WalImage, n: nat, cmd: Command)
    requires Invertible(c) && ImageOf(c, segs, w) && segs != [] && Ordered(segs) && AllBelow(w, n)
    ensures var more := WithLast(segs, Grown(Last(segs), c.encode(WalEntry(n, cmd))));
            ImageOf(c, more, S.WalImage(w.entries[n := cmd], Some(Last(segs).End() + 1)))
  {
    var p, end := c.encode(WalEntry(n, cmd)), Last(segs).End();
    var more, w1 := WithLast(segs, Grown(Last(segs), p)), S.WalImage(w.entries[n := cmd], Some(end + 1));
    assert c.decode(p) == Some(WalEntry(n, cmd));
    hide Invertible, PayloadIn, InSequence;
    forall i, k | 0 <= i < |more| && Covers(more[i], k) ensures OldOrNew(c, segs, w, more, i, k, end, p) {
      GrownRecord(c, segs, w, p, i, k);
    }
    forall k | k in w1.entries ensures Recorded(c, more, WalEntry(k, w1.entries[k])) {
      if k == n {
        assert Covers(more[|segs| - 1], end);
        assert OldOrNew(c, segs, w, more, |segs| - 1, end, end, p);
      } else {
        StillRecorded(c, segs, p, WalEntry(k, w.entries[k]));
      }
    }
    GrownSequence(c, segs, w, n, p, more);
  }

  /** A record of the grown segments is one of before, at its place, or the new one. */
  ghost predicate OldOrNew(c: Codec<WalEntry>, segs: seq<Segment>, w: S.WalImage, more: seq<Segment>, i: nat, k: nat, end: nat, p: Bytes)
    requires i < |more| && Covers(more[i], k)
  {
    if k == end then i == |segs| - 1 && PayloadIn(more[i], k) == p
    else k < end && i < |segs| && Covers(segs[i], k) && PayloadIn(more[i], k) == PayloadIn(segs[i], k) && IsRecord(c, PayloadIn(segs[i], k), w)
  }

  lemma GrownRecord(c: Codec<WalEntry>, segs: seq<Segment>, w: S.WalImage, p: Bytes, i: nat, k: nat)
    requires ImageOf(c, segs, w) && segs != [] && Ordered(segs) && i < |segs|
    requires Covers(WithLast(segs, Grown(Last(segs), p))[i], k)
    ensures OldOrNew(c, segs, w, WithLast(segs, Grown(Last(segs), p)), i, k, Last(segs).End(), p)
  {
    hide IsRecord, Recorded, InSequence;
    if k != Last(segs).End() {
      assert Covers(segs[i], k);
    }
  }

  lemma StillRecorded(c: Codec<WalEntry>, segs: seq<Segment>, p: Bytes, e: WalEntry)
    requires segs != [] && Recorded(c, segs, e)
    ensures Recorded(c, WithLast(segs, Grown(Last(segs), p)), e)
  {
    var more := WithLast(segs, Grown(Last(segs), p));
    var i, k :| 0 <= i < |segs| && Covers(segs[i], k) && c.decode(PayloadIn(segs[i], k)) == Some(e);
    assert Covers(more[i], k) && PayloadIn(more[i], k) == PayloadIn(segs[i], k);
  }

  lemma GrownSequence(c: Codec<WalEntry>, segs: seq<Segment>, w: S.WalImage, n: nat, p: Bytes, more: seq<Segment>)
    requires segs != [] && InSequence(c, segs) && more == WithLast(segs, Grown(Last(segs), p)) && AllBelow(w, n) && NumberOf(c, p) == n
    requires forall i, k {:trigger Covers(more[i], k)} :: 0 <= i < |more| && Covers(more[i], k) ==> OldOrNew(c, segs, w, more, i, k, Last(segs).End(), p)
    ensures InSequence(c, more)
  {
    hide PayloadIn;
    var end := Last(segs).End();
    forall i, k, i', k' | 0 <= i < |more| && 0 <= i' < |more| && Covers(more[i], k) && Covers(more[i'], k') && k < k'
      ensures NumberOf(c, PayloadIn(more[i], k)) < NumberOf(c, PayloadIn(more[i'], k'))
    {
      assert OldOrNew(c, segs, w, more, i, k, end, p) && OldOrNew(c, segs, w, more, i', k', end, p);
    }
    forall i, k, j | 0 <= i < j < |more| && Covers(more[i], k) ensures NumberOf(c, PayloadIn(more[i], k)) < more[j].start {
      assert OldOrNew(c, segs, w, more, i, k, end, p);
      assert more[j].start == segs[j].start;
    }
  }

  /** A new, empty file past all numbers changes only the next index. */
  lemma ImagePushed(c: Codec<WalEntry>, segs: seq<Segment>, w: S.WalImage, start: nat)
    requires ImageOf(c, segs, w) && AllBelow(w, start)
    ensures ImageOf(c, segs + [Segment(start, [])], S.WalImage(w.entries, Some(start)))
  {
    hide PayloadIn;
    var more := segs + [Segment(start, [])];
    forall i, k | 0 <= i < |more| && Covers(more[i], k) ensures i < |segs| && more[i] == segs[i] && Covers(segs[i], k) {
    }
    forall n | n in w.entries ensures Recorded(c, more, WalEntry(n, w.entries[n])) {
      var i, k :| 0 <= i < |segs| && Covers(segs[i], k) && c.decode(PayloadIn(segs[i], k)) == Some(WalEntry(n, w.entries[n]));
      assert Covers(more[i], k);
    }
  }

  /** The segments determine the image they decode to. */
  lemma ImageUnique(c: Codec<WalEntry>, segs: seq<Segment>, w: S.WalImage, w': S.WalImage)
    requires ImageOf(c, segs, w) && ImageOf(c, segs, w')
    ensures w == w'
  {
    EntriesWithin(c, segs, w, w');
    EntriesWithin(c, segs, w', w);
    assert w.entries.Keys == w'.entries.Keys;
  }

  lemma EntriesWithin(c: Codec<WalEntry>, segs: seq<Segment>, w: S.WalImage, w': S.WalImage)
    requires ImageOf(c, segs, w) && ImageOf(c, segs, w')
    ensures forall n :: n in w.entries ==> n in w'.entries && w.entries[n] == w'.entries[n]
  {
    hide PayloadIn, InSequence;
    forall n | n in w.entries ensures n in w'.entries && w.entries[n] == w'.entries[n] {
      var i, k :| 0 <= i < |segs| && Covers(segs[i], k) && c.decode(PayloadIn(segs[i], k)) == Some(WalEntry(n, w.entries[n]));
      assert IsRecord(c, PayloadIn(segs[i], k), w');
    }
  }

  /** `more` is `base` with one record more, and all of `base` is durable. */
  ghost predicate Unsynced(crc: Checksum, base: seq<Segment>, p: Bytes, more: seq<Segment>, durable: map<nat, nat>) {
    && Ordered(base) && base != [] && more == WithLast(base, Grown(Last(base), p))
    && Last(base).start in durable && |Encode(crc, Last(base).payloads)| <= durable[Last(base).start]
  }

  /** The segments a frame is added to: those there were, or with the new file it begins. */
  function BaseOf(segs: seq<Segment>, rotates: bool, index: nat): seq<Segment> {
    if segs != [] && (!rotates || Last(segs).start == index) then segs else segs + [Segment(index, [])]
  }

  /** The append begins a new file. */
  predicate NewFile(segs: seq<Segment>, rotates: bool, index: nat) {
    rotates && !(segs != [] && Last(segs).start == index)
  }

  /** The image before and after one append, with or without a new file. */
  lemma ImageAppended(c: Codec<WalEntry>, segs: seq<Segment>, w: S.WalImage, rotates: bool, n: nat, cmd: Command)
    requires Invertible(c) && ImageOf(c, segs, w) && Ordered(segs) && AllBelow(w, n) && (segs == [] ==> rotates)
    requires S.Clears(w, n, NewFile(segs, rotates, n))
    ensures var base, p, r := BaseOf(segs, rotates, n), c.encode(WalEntry(n, cmd)), NewFile(segs, rotates, n);
            && base != [] && Ordered(base) && AppendedTo(segs, rotates, n, p) == WithLast(base, Grown(Last(base), p))
            && ImageOf(c, base, S.TornWal(w, n, r)) && ImageOf(c, AppendedTo(segs, rotates, n, p), S.AppendWal(w, n, cmd, r))
  {
    hide ImageOf, Ordered, Invertible, WithLast, Grown;
    ImageNext(c, segs, w);
    BaseIs(segs, rotates, n, c.encode(WalEntry(n, cmd)));
    if NewFile(segs, rotates, n) {
      ImagePushed(c, segs, w, n);
    }
    ImageGrown(c, BaseOf(segs, rotates, n), S.TornWal(w, n, NewFile(segs, rotates, n)), n, cmd);
  }

  lemma NewLast(segs: seq<Segment>, g: Segment, h: Segment)
    ensures WithLast(segs + [g], h) == segs + [h]
  {
    assert (segs + [g])[..|segs|] == segs;
  }

  lemma BaseIs(segs: seq<Segment>, rotates: bool, n: nat, p: Bytes)
    requires Ordered(segs) && (segs == [] ==> rotates) && (NewFile(segs, rotates, n) && segs != [] ==> Last(segs).End() <= n)
    ensures var base := BaseOf(segs, rotates, n);
            && base != [] && Ordered(base) && AppendedTo(segs, rotates, n, p) == WithLast(base, Grown(Last(base), p))
            && base == (if NewFile(segs, rotates, n) then segs + [Segment(n, [])] else segs)
  {
    hide Ordered;
    if NewFile(segs, rotates, n) {
      RotatedOrdered(segs, n);
      assert [] + [p] == [p];
      NewLast(segs, Segment(n, []), Segment(n, [p]));
    }
  }

  lemma ImageNext(c: Codec<WalEntry>, segs: seq<Segment>, w: S.WalImage)
    requires ImageOf(c, segs, w)
    ensures w == S.WalImage(w.entries, if segs == [] then None else Some(Last(segs).End()))
  {
  }

  /** Where the last segment ends is the next index, however much has been purged from the index. */
  lemma EndIsNext(crc: Checksum, segs: seq<Segment>, floor: int, records: map<nat, RecordLoc>, contents: map<nat, Bytes>)
    requires Ordered(segs) && GapFree(segs) && IndexOk(crc, segs, floor, records, contents) && segs != []
    ensures records.Keys == {} || (Last(segs).End() - 1 in records.Keys && forall k :: k in records.Keys ==> k < Last(segs).End())
  {
    hide Frames.Encode, IndexOk, PayloadIn;
    SameKeys(crc, segs, floor, records, contents);
    var n := |segs| - 1;
    forall k | k in records.Keys ensures k < Last(segs).End() && Last(segs).End() - 1 in records.Keys {
      var i := IndexHit(crc, segs, floor, records, contents, k);
      var j := if segs[n].payloads != [] then n else n - 1;
      if n > 0 {
        OnlyLastEmpty(segs, n - 1);
      }
      assert segs[j].End() == segs[n].End() && segs[i].End() <= segs[n].End();
      assert Covers(segs[j], segs[j].End() - 1);
      IndexHas(crc, segs, floor, records, contents, j, segs[j].End() - 1);
    }
  }

  // ---------------------------------------------------------------- trim

  /** The image of the segments a purge leaves. */
  lemma ImageTrimmed(c: Codec<WalEntry>, segs: seq<Segment>, w: S.WalImage, index: nat, rest: seq<Segment>) returns (w': S.WalImage)
    requires ImageOf(c, segs, w) && Ordered(segs) && Ordered(rest) && Purged(segs, index, rest)
    ensures ImageOf(c, rest, w') && S.Trims(w, w', index)
  {
    hide PayloadIn;
    var gone := set n | n in w.entries && !Recorded(c, rest, WalEntry(n, w.entries[n]));
    w' := S.WalImage(w.entries - gone, w.next);
    forall i, k | 0 <= i < |rest| && Covers(rest[i], k) ensures IsRecord(c, PayloadIn(rest[i], k), w') {
      RestRecord(c, segs, w, rest, i, k);
    }
    forall n | n in w.entries && index < n ensures n in w'.entries {
      HighRecorded(c, segs, w, index, rest, n);
    }
    RestSequence(c, segs, rest);
  }

  /** The files of the directory hold this image. */
  ghost predicate HoldsImage(c: Codec<WalEntry>, crc: Checksum, dir: Directory, w: S.WalImage) {
    exists segs :: DiskOk(crc, segs, dir.files, dir.durable) && ImageOf(c, segs, w)
  }

  /** The directory holds what a trim may leave of the image. */
  ghost predicate TrimsTo(c: Codec<WalEntry>, crc: Checksum, w: S.WalImage, floor: nat, dir: Directory) {
    exists w' :: HoldsImage(c, crc, dir, w') && S.Trims(w, w', floor)
  }

  ghost predicate TrimsThrough(c: Codec<WalEntry>, crc: Checksum, w: S.WalImage, floor: nat, after: seq<Directory>) {
    forall e :: 0 <= e < |after| ==> TrimsTo(c, crc, w, floor, after[e])
  }

  /** So do all the directories a trim passes through. */
  lemma TrimsBetween(c: Codec<WalEntry>, crc: Checksum, segs: seq<Segment>, before: Directory, starts: seq<nat>, floor: nat, w: S.WalImage, after: seq<Directory>)
    requires DiskOk(crc, segs, before.files, before.durable) && Listed(starts, segs) && ImageOf(c, segs, w) && OneByOne(before, starts, floor, after)
    ensures TrimsThrough(c, crc, w, floor, after)
  {
    hide DiskOk, Listed, ImageOf, OneByOne, FirstOf, Superseded;
    forall e | 0 <= e < |after| ensures TrimsTo(c, crc, w, floor, after[e]) {
      AtIsWithout(before, starts, floor, after, e + 1);
      var w' := TrimBetween(c, crc, segs, before, starts, floor, w, FirstOf(starts, e + 1));
    }
  }

  lemma TrimBetween(c: Codec<WalEntry>, crc: Checksum, segs: seq<Segment>, before: Directory, starts: seq<nat>, floor: nat, w: S.WalImage, gone: set<nat>)
    returns (w': S.WalImage)
    requires DiskOk(crc, segs, before.files, before.durable) && Listed(starts, segs) && ImageOf(c, segs, w) && gone <= Superseded(starts, floor)
    ensures HoldsImage(c, crc, Without(before, gone), w') && S.Trims(w, w', floor)
  {
    hide DiskOk, Listed, ImageOf, Superseded, Remaining, Purged, Ordered, S.Trims;
    SupersededHas(starts, floor, gone);
    LastStays(segs, starts, floor, gone);
    DiskOrdered(crc, segs, before.files, before.durable);
    RemainingDisk(crc, segs, before.files, before.durable, gone);
    RemainingPurged(crc, segs, before.files, before.durable, starts, floor, gone);
    DiskOrdered(crc, Remaining(segs, gone), before.files - gone, before.durable - gone);
    w' := ImageTrimmed(c, segs, w, floor, Remaining(segs, gone));
  }

  lemma SupersededHas(starts: seq<nat>, index: nat, gone: set<nat>)
    requires gone <= Superseded(starts, index)
    ensures forall s :: s in gone ==> exists i :: 0 <= i < |starts| && starts[i] == s && Deletable(starts, i, index)
  {
    hide Deletable;
    forall s | s in gone ensures exists i :: 0 <= i < |starts| && starts[i] == s && Deletable(starts, i, index) {
      assert s in Superseded(starts, index);
    }
  }

  /** The segment holds a record of this entry. */
  ghost predicate Holds(c: Codec<WalEntry>, g: Segment, e: WalEntry) {
    exists k {:trigger Covers(g, k)} :: Covers(g, k) && c.decode(PayloadIn(g, k)) == Some(e)
  }

  /** Of the entries of `w`, exactly those stay in `w'` that a segment holds whose file is left. */
  ghost predicate Keeps(c: Codec<WalEntry>, segs: seq<Segment>, files: map<nat, Bytes>, w: S.WalImage, w': S.WalImage) {
    && (forall n :: n in w'.entries ==> n in w.entries && w'.entries[n] == w.entries[n])
    && forall n :: n in w.entries ==>
         (n in w'.entries <==> exists g :: g in segs && g.start in files && Holds(c, g, WalEntry(n, w.entries[n])))
  }

  /** The segments left are those whose files are. */
  lemma FilesLeft(crc: Checksum, segs: seq<Segment>, files: map<nat, Bytes>, durable: map<nat, nat>, gone: set<nat>, rest: seq<Segment>)
    requires DiskOk(crc, segs, files, durable) && Survivors(segs, gone, rest)
    ensures forall g :: g in rest <==> g in segs && g.start in files - gone
  {
    hide Ordered, Synced, Frames.Encode;
    forall g | g in segs ensures g.start in files {
      var i :| 0 <= i < |segs| && segs[i] == g;
    }
  }

  lemma TrimmedKeeps(c: Codec<WalEntry>, segs: seq<Segment>, w: S.WalImage, rest: seq<Segment>, files: map<nat, Bytes>, w': S.WalImage)
    requires ImageOf(c, rest, w') && (forall g :: g in rest <==> g in segs && g.start in files)
    requires forall n :: n in w'.entries ==> n in w.entries && w'.entries[n] == w.entries[n]
    ensures Keeps(c, segs, files, w, w')
  {
    hide PayloadIn, InSequence;
    forall n | n in w.entries
      ensures n in w'.entries <==> exists g :: g in segs && g.start in files && Holds(c, g, WalEntry(n, w.entries[n]))
    {
      var e := WalEntry(n, w.entries[n]);
      if n in w'.entries {
        var i, k :| 0 <= i < |rest| && Covers(rest[i], k) && c.decode(PayloadIn(rest[i], k)) == Some(e);
        assert rest[i] in rest && Holds(c, rest[i], e);
      }
      if g :| g in segs && g.start in files && Holds(c, g, e) {
        assert g in rest;
        var i :| 0 <= i < |rest| && rest[i] == g;
        var k :| Covers(g, k) && c.decode(PayloadIn(g, k)) == Some(e);
        assert Covers(rest[i], k);
      }
    }
  }

  lemma RestRecord(c: Codec<WalEntry>, segs: seq<Segment>, w: S.WalImage, rest: seq<Segment>, i: nat, k: nat)
    requires ImageOf(c, segs, w) && i < |rest| && rest[i] in segs && Covers(rest[i], k)
    ensures var e := c.decode(PayloadIn(rest[i], k));
            e.Some? && e.value.seqNo in w.entries && w.entries[e.value.seqNo] == e.value.command && Recorded(c, rest, e.value)
  {
    hide PayloadIn, InSequence;
    var j :| 0 <= j < |segs| && segs[j] == rest[i];
    assert Covers(segs[j], k);
  }

  /** An entry above the floor is in a file that stays: a deleted one lies before a file named at most one above it. */
  lemma HighRecorded(c: Codec<WalEntry>, segs: seq<Segment>, w: S.WalImage, index: nat, rest: seq<Segment>, n: nat)
    requires ImageOf(c, segs, w) && Purged(segs, index, rest) && n in w.entries && index < n
    ensures Recorded(c, rest, WalEntry(n, w.entries[n]))
  {
    hide PayloadIn, IsRecord;
    var e := WalEntry(n, w.entries[n]);
    var i, k :| 0 <= i < |segs| && Covers(segs[i], k) && c.decode(PayloadIn(segs[i], k)) == Some(e);
    assert NumberOf(c, PayloadIn(segs[i], k)) == n;
    assert segs[i] in rest;
    var j :| 0 <= j < |rest| && rest[j] == segs[i];
    assert Covers(rest[j], k);
  }

  lemma RestSequence(c: Codec<WalEntry>, segs: seq<Segment>, rest: seq<Segment>)
    requires InSequence(c, segs) && Ordered(segs) && Ordered(rest) && forall g :: g in rest ==> g in segs
    ensures InSequence(c, rest)
  {
    hide PayloadIn, NumberOf;
    forall i, k, i', k' | 0 <= i < |rest| && 0 <= i' < |rest| && Covers(rest[i], k) && Covers(rest[i'], k') && k < k'
      ensures NumberOf(c, PayloadIn(rest[i], k)) < NumberOf(c, PayloadIn(rest[i'], k'))
    {
      assert rest[i] in segs && rest[i'] in segs;
      var a :| 0 <= a < |segs| && segs[a] == rest[i];
      var b :| 0 <= b < |segs| && segs[b] == rest[i'];
      assert Covers(segs[a], k) && Covers(segs[b], k');
    }
    forall i, k, j | 0 <= i < j < |rest| && Covers(rest[i], k) ensures NumberOf(c, PayloadIn(rest[i], k)) < rest[j].start {
      assert rest[i] in segs && rest[j] in segs;
      var a :| 0 <= a < |segs| && segs[a] == rest[i];
      var b :| 0 <= b < |segs| && segs[b] == rest[j];
      assert a < b && Covers(segs[a], k);
    }
  }

  // ---------------------------------------------------------------- the log

  /** Every key of the index is a position of the files, or the number of an entry. */
  predicate Keyed(records: map<nat, RecordLoc>, segs: seq<Segment>, w: S.WalImage) {
    forall k :: k in records ==> k in w.entries || (segs != [] && k < Last(segs).End())
  }

  class Wal {
    const codec: Codec<WalEntry>
    const log: SegmentedLog
    ghost var image: S.WalImage

    ghost predicate Valid()
      reads this, log
    {
      Invertible(codec) && log.Grounded() && ImageOf(codec, log.segs, image) && Keyed(log.records, log.segs, image)
    }

    /** Everything written is durable. */
    ghost predicate Durable()
      reads log
    {
      AllDurable(log.files, log.durable)
    }

    constructor (codec: Codec<WalEntry>, log: SegmentedLog, ghost image: S.WalImage)
      ensures this.codec == codec && this.log == log && this.image == image
    {
      this.codec, this.log, this.image := codec, log, image;
    }

    /** The append of this number begins a new file. */
    ghost predicate Rotates(seqNo: nat)
      reads log
    {
      NewFile(log.segs, log.NeedsRotation(), seqNo)
    }

    /** The number is new, and a file it begins does not lie below the end of the last one. */
    ghost predicate InPlace(seqNo: nat)
      reads this, log
    {
      Valid() && AllBelow(image, seqNo) && S.Clears(image, seqNo, Rotates(seqNo))
    }

    /** One entry was written after everything before it was durable; it is not durable itself. */
    ghost predicate MidAppend(w: S.WalImage, seqNo: nat, cmd: Command, rotates: bool)
      reads this, log
    {
      && Valid() && image == S.AppendWal(w, seqNo, cmd, rotates)
      && exists base :: Unsynced(log.crc, base, codec.encode(WalEntry(seqNo, cmd)), log.segs, log.durable) &&
           ImageOf(codec, base, S.TornWal(w, seqNo, rotates))
    }

    lemma CanBegin(seqNo: nat)
      requires InPlace(seqNo)
      ensures Ordered(log.segs) && log.Usable() && (log.segs == [] ==> log.NeedsRotation())
      ensures log.NeedsRotation() ==> Begins(log.segs, log.records, seqNo)
    {
      hide Frames.Encode, Ordered, Synced, Listed, Filed, InSequence, Recorded, IsRecord;
      ImageNext(codec, log.segs, image);
    }

    /**
     Writes one entry; it is not durable yet. In place, with or without gaps before it, the files hold
     exactly the image with the entry added.
     */
    method Write(seqNo: nat, cmd: Command) returns (ok: bool)
      requires log.Usable()
      modifies `image, log
      ensures ok <==> Fits(codec.encode(WalEntry(seqNo, cmd)))
      ensures log.Usable() && (!ok ==> unchanged(log) && image == old(image))
      ensures ok && old(InPlace(seqNo)) ==> Valid() && image == S.AppendWal(old(image), seqNo, cmd, old(Rotates(seqNo)))
      ensures ok && old(InPlace(seqNo) && Durable()) ==> MidAppend(old(image), seqNo, cmd, old(Rotates(seqNo)))
    {
      hide DiskOk, IndexOk, Ordered, GapFree, ImageOf, AppendedTo, StartsOf, ActiveOf, Frames.Frame, Frames.Encode, Points, AllBut, AllDurable,
           SegmentedLog.NeedsRotation, SegmentedLog.IsNext, SegmentedLog.Consistent, SegmentedLog.Grounded, Invertible, WithLast, Grown, Unsynced, BaseOf, Keyed, Begins,
           SegmentedLog.Placed, SegmentedLog.Aligned, WrittenTo, S.AppendWal, S.TornWal, S.Clears, NewFile, AllBelow;
      ghost var w, segs, records, good, rotates, r := image, log.segs, log.records, InPlace(seqNo), log.NeedsRotation(), Rotates(seqNo);
      ghost var p := codec.encode(WalEntry(seqNo, cmd));
      if good {
        CanBegin(seqNo);
        ImageAppended(codec, segs, w, rotates, seqNo, cmd);
      }
      ok := log.Append(seqNo, codec.encode(WalEntry(seqNo, cmd)));
      if ok && good {
        image := S.AppendWal(image, seqNo, cmd, r);
        AppendedKeyed(codec, segs, w, rotates, seqNo, cmd, records, log.records);
        if old(Durable()) {
          GroundedActive();
          AllButUnsynced(log.crc, BaseOf(segs, rotates, seqNo), p, log.segs, log.files, log.durable, log.active.value.start);
        }
      }
    }

    lemma GroundedUsable()
      requires log.Grounded()
      ensures log.Usable()
    {
    }

    lemma GroundedActive()
      requires log.Grounded() && log.active.Some?
      ensures DiskOk(log.crc, log.segs, log.files, log.durable) && log.segs != [] && log.active.value.start == Last(log.segs).start
    {
    }

    /** Appends one entry and syncs it. */
    method Append(seqNo: nat, cmd: Command) returns (ok: bool)
      requires log.Usable()
      modifies `image, log
      ensures ok <==> Fits(codec.encode(WalEntry(seqNo, cmd)))
      ensures log.Usable() && (!ok ==> unchanged(log) && image == old(image))
      ensures ok && old(InPlace(seqNo)) ==> Valid() && Durable() && image == S.AppendWal(old(image), seqNo, cmd, old(Rotates(seqNo)))
    {
      hide SegmentedLog.Consistent, SegmentedLog.Grounded, ImageOf, Invertible, AllDurable, MidAppend, SegmentedLog.NeedsRotation, S.AppendWal, Keyed;
      ok := Write(seqNo, cmd);
      if ok {
        log.Sync();
      }
    }

    /**
     Drops whole segments at or below `floor`: no index entry there is left, of the files listed none but
     the last whose successor begins at most one above the floor, and of the entries exactly those in
     the files left. The files go one by one, and the directory holds such an image all along.
     */
    method Trim(floor: nat)
      requires Valid()
      modifies `image, log
      ensures Valid() && S.Trims(old(image), image, floor)
      ensures old(Durable()) ==> Durable()
      ensures log.records == Above(old(log.records), floor)
      ensures log.files == old(log.files) - Superseded(old(log.starts), floor) && Superseded(log.starts, floor) == {}
      ensures Keeps(codec, old(log.segs), log.files, old(image), image)
      ensures old(log.trail) <= log.trail && OneByOne(Directory(old(log.files), old(log.durable)), old(log.starts), floor, log.trail[|old(log.trail)|..])
      ensures TrimsThrough(codec, log.crc, old(image), floor, log.trail[|old(log.trail)|..])
    {
      GroundedShape();
      ghost var segs := log.segs;
      DiskOrdered(log.crc, segs, log.files, log.durable);
      hide DiskOk, IndexOk, GapFree, ImageOf, StartsOf, ActiveOf, Shaped, PurgePoint, Above, Listed, Filed, Purged, Ordered, Keyed, Survivors, Superseded, Keeps, OneByOne, TrimsThrough;
      ghost var records, starts, files, durable := log.records, log.starts, log.files, log.durable;
      log.PurgeThrough(floor);
      DiskOrdered(log.crc, log.segs, log.files, log.durable);
      ghost var w := image;
      image := ImageTrimmed(codec, segs, image, floor, log.segs);
      TrimmedKeyed(records, segs, w, floor, log.segs, image);
      FilesLeft(log.crc, segs, files, durable, Superseded(starts, floor), log.segs);
      TrimmedKeeps(codec, segs, w, log.segs, log.files, image);
      TrimsBetween(codec, log.crc, segs, Directory(files, durable), starts, floor, w, log.trail[|old(log.trail)|..]);
    }

    lemma GroundedShape()
      requires log.Grounded()
      ensures Shaped(log.starts, log.active)
    {
    }
  }

  lemma AppendedKeyed(c: Codec<WalEntry>, segs: seq<Segment>, w: S.WalImage, rotates: bool, n: nat, cmd: Command,
                      records: map<nat, RecordLoc>, records1: map<nat, RecordLoc>)
    requires ImageOf(c, segs, w) && Keyed(records, segs, w) && records1.Keys == records.Keys + {n}
    requires S.Clears(w, n, NewFile(segs, rotates, n))
    ensures Keyed(records1, AppendedTo(segs, rotates, n, c.encode(WalEntry(n, cmd))), S.AppendWal(w, n, cmd, NewFile(segs, rotates, n)))
  {
    ImageNext(c, segs, w);
    hide ImageOf;
  }

  lemma TrimmedKeyed(records: map<nat, RecordLoc>, segs: seq<Segment>, w: S.WalImage, floor: nat, rest: seq<Segment>, w': S.WalImage)
    requires Keyed(records, segs, w) && Purged(segs, floor, rest) && S.Trims(w, w', floor)
    ensures Keyed(Above(records, floor), rest, w')
  {
  }

  /** All but the last frame is durable. */
  lemma AllButUnsynced(crc: Checksum, base: seq<Segment>, p: Bytes, more: seq<Segment>, files: map<nat, Bytes>, durable: map<nat, nat>, at: nat)
    requires Ordered(base) && base != [] && Fits(p) && more == WithLast(base, Grown(Last(base), p))
    requires DiskOk(crc, more, files, durable) && at == Last(more).start && AllBut(files, durable, at, |Frame(crc, p)|)
    ensures Unsynced(crc, base, p, more, durable)
  {
    EncodeSnoc(crc, Last(base).payloads, p);
    hide Frames.Encode, Frames.Frame, Ordered, Synced;
    DiskSynced(crc, more, files, durable);
  }

  // ---------------------------------------------------------------- opening

  /** What is read back of an image; everything, if everything is read back. */
  lemma ImageRead(c: Codec<WalEntry>, crc: Checksum, was: seq<Segment>, disk: map<nat, Bytes>, w: S.WalImage) returns (w': S.WalImage)
    requires ImageOf(c, was, w) && Recoverable(crc, was, disk)
    ensures ImageOf(c, ReadBack(crc, was, disk), w') && (ReadBack(crc, was, disk) == was ==> w' == w)
    ensures forall k :: k in w'.entries ==> k in w.entries && w'.entries[k] == w.entries[k]
  {
    hide Recoverable, ReadBack, Ordered, Named, GapFree, PayloadIn, IsRecord, Recorded, InSequence;
    var read := ReadBack(crc, was, disk);
    RecoveredOrdered(crc, was, disk);
    SameNames(was, read);
    forall i, k | 0 <= i < |read| && Covers(read[i], k) ensures Covers(was[i], k) && PayloadIn(read[i], k) == PayloadIn(was[i], k) {
      ReadBackWasThere(crc, was, disk, i, k);
    }
    w' := ImageShrunk(c, was, w, read);
  }

  lemma SameNames(a: seq<Segment>, b: seq<Segment>)
    requires StartsOf(a) == StartsOf(b)
    ensures |a| == |b| && forall i :: 0 <= i < |a| ==> a[i].start == b[i].start
  {
    assert forall i :: 0 <= i < |a| ==> StartsOf(a)[i] == StartsOf(b)[i];
  }

  /** Segments of the same names with some of the records. */
  ghost predicate Within(read: seq<Segment>, was: seq<Segment>) {
    && |read| == |was| && (forall i :: 0 <= i < |was| ==> read[i].start == was[i].start)
    && forall i, k {:trigger Covers(read[i], k)} :: 0 <= i < |read| && Covers(read[i], k) ==> Covers(was[i], k) && PayloadIn(read[i], k) == PayloadIn(was[i], k)
  }

  lemma ImageShrunk(c: Codec<WalEntry>, was: seq<Segment>, w: S.WalImage, read: seq<Segment>) returns (w': S.WalImage)
    requires ImageOf(c, was, w) && Within(read, was)
    ensures ImageOf(c, read, w') && (read == was ==> w' == w)
    ensures forall k :: k in w'.entries ==> k in w.entries && w'.entries[k] == w.entries[k]
  {
    hide PayloadIn, InSequence, IsRecord, Recorded;
    var gone := set k | k in w.entries && !Recorded(c, read, WalEntry(k, w.entries[k]));
    w' := S.WalImage(w.entries - gone, if read == [] then None else Some(Last(read).End()));
    forall i, k | 0 <= i < |read| && Covers(read[i], k) ensures IsRecord(c, PayloadIn(read[i], k), w') {
      ShrunkRecord(c, w, read, i, k, PayloadIn(read[i], k), w');
    }
    SameSequence(c, was, read);
    if read == was {
      assert gone == {};
      ImageNext(c, was, w);
    }
  }

  lemma ShrunkRecord(c: Codec<WalEntry>, w: S.WalImage, read: seq<Segment>, i: nat, k: nat, p: Bytes, w': S.WalImage)
    requires i < |read| && Covers(read[i], k) && PayloadIn(read[i], k) == p && IsRecord(c, p, w)
    requires forall n :: n in w.entries && Recorded(c, read, WalEntry(n, w.entries[n])) ==> n in w'.entries && w'.entries[n] == w.entries[n]
    ensures IsRecord(c, p, w')
  {
    hide PayloadIn;
    assert Recorded(c, read, c.decode(p).value);
  }

  lemma SameSequence(c: Codec<WalEntry>, was: seq<Segment>, read: seq<Segment>)
    requires InSequence(c, was) && Within(read, was)
    ensures InSequence(c, read)
  {
    hide PayloadIn, NumberOf;
    forall i, k, i', k' | 0 <= i < |read| && 0 <= i' < |read| && Covers(read[i], k) && Covers(read[i'], k') && k < k'
      ensures NumberOf(c, PayloadIn(read[i], k)) < NumberOf(c, PayloadIn(read[i'], k'))
    {
      assert Covers(was[i], k) && Covers(was[i'], k');
    }
    forall i, k, j | 0 <= i < j < |read| && Covers(read[i], k) ensures NumberOf(c, PayloadIn(read[i], k)) < read[j].start {
      assert Covers(was[i], k) && read[j].start == was[j].start;
    }
  }

  /** `out` is exactly the entries of the image, in order. */
  ghost predicate InOrder(out: seq<WalEntry>, w: S.WalImage) {
    && (forall i, j :: 0 <= i < j < |out| ==> out[i].seqNo < out[j].seqNo)
    && (forall i :: 0 <= i < |out| ==> out[i].seqNo in w.entries && w.entries[out[i].seqNo] == out[i].command)
    && (forall k :: k in w.entries ==> WalEntry(k, w.entries[k]) in out)
  }

  /** With nothing purged, the index holds exactly the image, encoded, in the order of its numbers. */
  ghost predicate Encodes(c: Codec<WalEntry>, contents: map<nat, Bytes>, w: S.WalImage) {
    && (forall k :: k in contents ==> IsRecord(c, contents[k], w))
    && (forall n :: n in w.entries ==> exists k :: k in contents && c.decode(contents[k]) == Some(WalEntry(n, w.entries[n])))
    && (forall k, k' :: k in contents && k' in contents && k < k' ==> NumberOf(c, contents[k]) < NumberOf(c, contents[k']))
  }

  lemma ImageEncoded(c: Codec<WalEntry>, crc: Checksum, segs: seq<Segment>, records: map<nat, RecordLoc>, contents: map<nat, Bytes>, w: S.WalImage)
    requires Ordered(segs) && IndexOk(crc, segs, -1, records, contents) && ImageOf(c, segs, w)
    ensures Encodes(c, contents, w)
  {
    hide IndexOk, Ordered, PayloadIn, NumberOf;
    forall k | k in contents ensures IsRecord(c, contents[k], w) {
      var i := IndexHit(crc, segs, -1, records, contents, k);
    }
    forall n | n in w.entries ensures exists k :: k in contents && c.decode(contents[k]) == Some(WalEntry(n, w.entries[n])) {
      var i, k :| 0 <= i < |segs| && Covers(segs[i], k) && c.decode(PayloadIn(segs[i], k)) == Some(WalEntry(n, w.entries[n]));
      IndexHas(crc, segs, -1, records, contents, i, k);
    }
    forall k, k' | k in contents && k' in contents && k < k' ensures NumberOf(c, contents[k]) < NumberOf(c, contents[k']) {
      var i := IndexHit(crc, segs, -1, records, contents, k);
      var i' := IndexHit(crc, segs, -1, records, contents, k');
    }
  }

  lemma OpenKeyed(crc: Checksum, segs: seq<Segment>, records: map<nat, RecordLoc>, contents: map<nat, Bytes>, w: S.WalImage)
    requires Ordered(segs) && IndexOk(crc, segs, -1, records, contents)
    ensures Keyed(records, segs, w)
  {
    hide Frames.Encode, Entered, PayloadIn;
    forall k | k in records ensures segs != [] && k < Last(segs).End() {
      assert Covered(segs, k);
      var i :| 0 <= i < |segs| && Covers(segs[i], k);
      assert i < |segs| - 1 ==> segs[i].End() <= Last(segs).start;
    }
  }

  /**
   Opens the log and decodes its entries, in order. Whatever was cut off its last file, and whatever
   gaps are between its files, the entries are those of the segments read back, and the next index
   is where they end.
   */
  method Open(codec: Codec<WalEntry>, crc: Checksum, maxBytes: nat, disk: map<nat, Bytes>, ghost was: seq<Segment>, ghost w: S.WalImage)
    returns (wal: Wal, entries: seq<WalEntry>)
    requires Invertible(codec) && Recoverable(crc, was, disk) && ImageOf(codec, was, w)
    ensures fresh(wal) && fresh(wal.log) && wal.codec == codec && wal.Valid() && wal.Durable()
    ensures wal.log.segs == ReadBack(crc, was, disk) && InOrder(entries, wal.image)
    ensures ImageOf(codec, ReadBack(crc, was, disk), wal.image) && (ReadBack(crc, was, disk) == was ==> wal.image == w)
    ensures forall k :: k in wal.image.entries ==> k in w.entries && wal.image.entries[k] == w.entries[k]
  {
    hide Frames.Encode, Ordered, GapFree, Stored, Synced, IndexOk, StartsOf, ActiveOf, Recoverable, ReadBack, ImageOf, Encodes, InOrder, ListsAll, Shaped, AllDurable,
         Points, Keyed, SegmentedLog.Grounded, Overlay, FilesRead, ReadAsFar;
    var log := new SegmentedLog(crc, maxBytes, disk, was);
    ghost var image := ImageRead(codec, crc, was, disk, w);
    ImageEncoded(codec, crc, log.segs, log.records, log.contents, image);
    OpenKeyed(crc, log.segs, log.records, log.contents, image);
    log.ConsistentGrounded();
    wal := new Wal(codec, log, image);
    var found := log.ReadAll();
    entries := DecodeAll(codec, found, log.contents, image);
  }

  lemma FoundRecord(c: Codec<WalEntry>, found: seq<(nat, Bytes)>, contents: map<nat, Bytes>, w: S.WalImage, i: nat)
    requires Encodes(c, contents, w) && ListsAll(found, contents) && i < |found|
    ensures c.decode(found[i].1).Some?
  {
    assert IsRecord(c, contents[found[i].0], w);
  }

  method DecodeAll(c: Codec<WalEntry>, found: seq<(nat, Bytes)>, ghost contents: map<nat, Bytes>, ghost w: S.WalImage) returns (out: seq<WalEntry>)
    requires Encodes(c, contents, w) && ListsAll(found, contents)
    ensures InOrder(out, w)
  {
    hide InOrder;
    out := [];
    for i := 0 to |found|
      invariant |out| == i
      invariant forall j :: 0 <= j < i ==> c.decode(found[j].1) == Some(out[j])
    {
      FoundRecord(c, found, contents, w, i);
      out := out + [c.decode(found[i].1).value];
    }
    DecodedInOrder(c, found, contents, w, out);
  }

  lemma DecodedInOrder(c: Codec<WalEntry>, found: seq<(nat, Bytes)>, contents: map<nat, Bytes>, w: S.WalImage, out: seq<WalEntry>)
    requires Encodes(c, contents, w) && ListsAll(found, contents) && |out| == |found|
    requires forall j :: 0 <= j < |found| ==> c.decode(found[j].1) == Some(out[j])
    ensures InOrder(out, w)
  {
    forall i, j | 0 <= i < j < |out| ensures out[i].seqNo < out[j].seqNo {
      assert NumberOf(c, contents[found[i].0]) < NumberOf(c, contents[found[j].0]);
    }
    forall i | 0 <= i < |out| ensures out[i].seqNo in w.entries && w.entries[out[i].seqNo] == out[i].command {
      assert IsRecord(c, contents[found[i].0], w);
    }
    forall n | n in w.entries ensures WalEntry(n, w.entries[n]) in out {
      var k :| k in contents && c.decode(contents[k]) == Some(WalEntry(n, w.entries[n]));
      assert (k, contents[k]) in found;
      var j :| 0 <= j < |found| && found[j] == (k, contents[k]);
      assert out[j] == WalEntry(n, w.entries[n]);
    }
  }

  // ---------------------------------------------------------------- crashes inside an append

  /** The directory without the unsynced frame is that of the segments without the record. */
  lemma WithoutFrame(crc: Checksum, base: seq<Segment>, p: Bytes, more: seq<Segment>, files: map<nat, Bytes>, durable: map<nat, nat>)
    requires Unsynced(crc, base, p, more, durable) && DiskOk(crc, more, files, durable)
    ensures var t, file := Last(base).start, Encode(crc, Last(base).payloads);
            DiskOk(crc, base, files[t := file], durable[t := |file|])
  {
    var g := Last(base);
    assert AllFit(g.payloads);
    hide Frames.Encode, Ordered, Named, Synced;
    LastReplaced(more, files, durable, g, Encode(crc, g.payloads), |Encode(crc, g.payloads)|);
    assert WithLast(more, g) == base;
    LastStored(crc, more, files, g);
  }

  /** What a crash leaves: everything before the unsynced frame, and some prefix of it. */
  lemma LeftOfFrame(crc: Checksum, base: seq<Segment>, p: Bytes, more: seq<Segment>, files: map<nat, Bytes>, durable: map<nat, nat>,
                    left: map<nat, Bytes>) returns (cut: nat)
    requires Unsynced(crc, base, p, more, durable) && DiskOk(crc, more, files, durable) && Crashed(files, durable, left) && Fits(p)
    ensures var t, file := Last(base).start, Encode(crc, Last(base).payloads);
            && cut <= |Frame(crc, p)| && left == files[t := file + Frame(crc, p)[..cut]]
            && (cut == |Frame(crc, p)| <==> left == files)
  {
    var t, file := Last(base).start, Encode(crc, Last(base).payloads);
    EncodeSnoc(crc, Last(base).payloads, p);
    hide Frames.Encode, Frames.Frame, Ordered;
    DiskSynced(crc, more, files, durable);
    OthersDurable(more, files, durable);
    hide Stored, Synced;
    assert files[t] == file + Frame(crc, p) && |file| <= |left[t]|;
    cut := |left[t]| - |file|;
    PrefixBeyond(file, Frame(crc, p), left[t]);
    forall s | s in files && s != t ensures left[s] == files[s] {
      assert left[s] <= files[s] && durable[s] <= |left[s]|;
    }
    LeftIs(files, left, t, file, Frame(crc, p), cut);
  }

  lemma LeftIs(files: map<nat, Bytes>, left: map<nat, Bytes>, t: nat, file: Bytes, frame: Bytes, cut: nat)
    requires left.Keys == files.Keys && t in files && files[t] == file + frame && cut <= |frame| && left[t] == file + frame[..cut]
    requires forall s :: s in files && s != t ==> left[s] == files[s]
    ensures left == files[t := file + frame[..cut]] && (cut == |frame| <==> left == files)
  {
    if cut == |frame| {
      assert left[t] == files[t];
    } else {
      assert |left[t]| < |files[t]|;
    }
  }

  lemma UnsyncedFits(crc: Checksum, base: seq<Segment>, p: Bytes, more: seq<Segment>, files: map<nat, Bytes>, durable: map<nat, nat>)
    requires Unsynced(crc, base, p, more, durable) && DiskOk(crc, more, files, durable)
    ensures Ordered(base) && base != [] && AllFit(Last(base).payloads) && Fits(p) && more == WithLast(base, Grown(Last(base), p))
  {
    hide Frames.Encode, Stored, Synced;
    assert AllFit(Last(more).payloads) && Last(more).payloads[|Last(base).payloads|] == p;
  }

  lemma PrefixBeyond(a: Bytes, b: Bytes, x: Bytes)
    requires x <= a + b && |a| <= |x|
    ensures |x| - |a| <= |b| && x == a + b[..|x| - |a|]
  {
  }

  /** Whatever a crash leaves of the unsynced frame, the record is read back if all of it is left, and not at all otherwise. */
  lemma TornWrite(crc: Checksum, base: seq<Segment>, p: Bytes, more: seq<Segment>, files: map<nat, Bytes>, durable: map<nat, nat>, left: map<nat, Bytes>)
    requires Unsynced(crc, base, p, more, durable) && DiskOk(crc, more, files, durable) && Crashed(files, durable, left)
    ensures Recoverable(crc, more, left) && ReadBack(crc, more, left) == if left == files then more else base
  {
    hide Frames.Encode, Frames.Frame, Ordered, Stored, Synced, Recoverable, ReadBack, Crashed, Unsynced, WithLast, Grown, DiskOk;
    UnsyncedFits(crc, base, p, more, files, durable);
    var cut := LeftOfFrame(crc, base, p, more, files, durable, left);
    WithoutFrame(crc, base, p, more, files, durable);
    var t, file := Last(base).start, Encode(crc, Last(base).payloads);
    AppendAtomic(crc, base, files[t := file], durable[t := |file|], p, cut);
    assert files[t := file][t := file + Frame(crc, p)[..cut]] == left;
  }

  /**
   A crash at any byte inside an append, its rotation included, with or without gaps before it:
   reopening finds the whole entry if every byte of it is left, and otherwise the log as it was,
   with at most an empty file for the same number.
   */
  method ReopenInsideAppend(wal: Wal, seqNo: nat, cmd: Command, left: map<nat, Bytes>, ghost w: S.WalImage, ghost rotates: bool)
    returns (again: Wal, entries: seq<WalEntry>)
    requires wal.MidAppend(w, seqNo, cmd, rotates) && Crashed(wal.log.files, wal.log.durable, left)
    ensures fresh(again) && fresh(again.log) && again.codec == wal.codec && again.Valid() && again.Durable() && InOrder(entries, again.image)
    ensures again.image == if left == wal.log.files then S.AppendWal(w, seqNo, cmd, rotates) else S.TornWal(w, seqNo, rotates)
  {
    hide DiskOk, IndexOk, Ordered, GapFree, ImageOf, InOrder, StartsOf, ActiveOf, Recoverable, ReadBack, Crashed, Unsynced, AllDurable, Invertible, Keyed, Listed, Filed;
    ghost var p := wal.codec.encode(WalEntry(seqNo, cmd));
    ghost var base :| Unsynced(wal.log.crc, base, p, wal.log.segs, wal.log.durable) && ImageOf(wal.codec, base, S.TornWal(w, seqNo, rotates));
    TornWrite(wal.log.crc, base, p, wal.log.segs, wal.log.files, wal.log.durable, left);
    again, entries := Open(wal.codec, wal.log.crc, wal.log.maxBytes, left, wal.log.segs, wal.image);
    if left != wal.log.files {
      ImageUnique(wal.codec, base, again.image, S.TornWal(w, seqNo, rotates));
    }
  }

  // ---------------------------------------------------------------- a file below the end of the last one

  /**
   An append that begins a new file is read back after everything there was if and only if the file
   clears the last one. Otherwise an entry is displaced, or comes after it.
   */
  method NewFileThenReread(wal: Wal, seqNo: nat, cmd: Command) returns (before: seq<(nat, Bytes)>, after: seq<(nat, Bytes)>)
    requires wal.Valid() && AllBelow(wal.image, seqNo) && wal.log.NeedsRotation() && seqNo !in wal.log.files
    requires Fits(wal.codec.encode(WalEntry(seqNo, cmd))) && (wal.log.segs != [] ==> Last(wal.log.segs).payloads != [])
    modifies wal.log
    ensures Payloads(after) == Payloads(before) + [wal.codec.encode(WalEntry(seqNo, cmd))] <==> old(S.Clears(wal.image, seqNo, true))
  {
    hide Frames.Encode, Ordered, Stored, Synced, Listed, Filed, Keyed, InSequence, Recorded, PayloadIn;
    ghost var p := wal.codec.encode(WalEntry(seqNo, cmd));
    NewPayload(wal.codec, wal.log.segs, wal.image, seqNo, cmd);
    ImageNext(wal.codec, wal.log.segs, wal.image);
    if wal.log.segs != [] {
      BelowIsEnd(wal.log.segs, seqNo);
    }
    before, after := NewFileThenReopen(wal.log, seqNo, wal.codec.encode(WalEntry(seqNo, cmd)));
  }

  lemma NewPayload(c: Codec<WalEntry>, segs: seq<Segment>, w: S.WalImage, n: nat, cmd: Command)
    requires Invertible(c) && ImageOf(c, segs, w) && AllBelow(w, n)
    ensures forall i, k {:trigger Covers(segs[i], k)} :: 0 <= i < |segs| && Covers(segs[i], k) ==> PayloadIn(segs[i], k) != c.encode(WalEntry(n, cmd))
  {
    hide PayloadIn, InSequence;
    assert c.decode(c.encode(WalEntry(n, cmd))) == Some(WalEntry(n, cmd));
  }
}
