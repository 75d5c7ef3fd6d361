/**
 Record framing of the segmented log: `[len: u32][crc32c: u32][payload]`, little endian, and the
 scan that reads a segment file back up to the first damaged frame.
 */
module Frames {
  import opened Outcome

  type Byte = b: int | 0 <= b < 256
  type Bytes = seq<Byte>
  type Word = w: int | 0 <= w < 0x1_0000_0000

  /** The checksum is foreign code; everything here holds for any function of the payload. */
  type Checksum = Bytes -> Word

  /** So is the encoding of the payloads; all that is used of it is that it can be inverted. */
  datatype Codec<!T> = Codec(encode: T -> Bytes, decode: Bytes -> Option<T>)

  ghost predicate Invertible<T(!new)>(c: Codec<T>) {
    forall e :: c.decode(c.encode(e)) == Some(e)
  }

  const HEADER_BYTES := 8

  const MAX_LEN := 0x1_0000_0000

  // ---------------------------------------------------------------- little-endian words

  function Le32(w: Word): (b: Bytes)
    ensures |b| == 4
  {
    [w % 256, w / 256 % 256, w / 65536 % 256, w / 16777216]
  }

  function FromLe32(b: Bytes): Word
    requires |b| == 4
  {
    var b0: int, b1: int, b2: int, b3: int := b[0], b[1], b[2], b[3];
    b0 + 256 * b1 + 65536 * b2 + 16777216 * b3
  }

  function Pow256(i: nat): (p: nat)
    ensures p > 0
  {
    if i == 0 then 1 else 256 * Pow256(i - 1)
  }

  lemma WordRoundTrip(w: Word)
    ensures FromLe32(Le32(w)) == w
  {
    assert w / 65536 == w / 256 / 256 && w / 16777216 == w / 65536 / 256;
  }

  lemma BytesRoundTrip(b: Bytes)
    requires |b| == 4
    ensures Le32(FromLe32(b)) == b
  {
    var b0: int, b1: int, b2: int, b3: int := b[0], b[1], b[2], b[3];
    var w := b0 + 256 * b1 + 65536 * b2 + 16777216 * b3;
    assert w / 256 == b1 + 256 * b2 + 65536 * b3;
    assert w / 65536 == b2 + 256 * b3;
    assert w / 16777216 == b3;
  }

  // ---------------------------------------------------------------- frames

  /** A payload whose length fits the header. */
  predicate Fits(p: Bytes) {
    |p| < MAX_LEN
  }

  predicate AllFit(ps: seq<Bytes>) {
    forall i :: 0 <= i < |ps| ==> Fits(ps[i])
  }

  function Frame(crc: Checksum, p: Bytes): (f: Bytes)
    requires Fits(p)
    ensures |f| == HEADER_BYTES + |p| && f[HEADER_BYTES..] == p
  {
    Le32(|p|) + Le32(crc(p)) + p
  }

  /** The header is the length and then the checksum, lowest byte first: byte `i` of each is the digit of weight 256 to the `i`. */
  lemma HeaderBytes(crc: Checksum, p: Bytes, i: nat)
    requires Fits(p) && i < 4
    ensures Frame(crc, p)[i] as int == |p| / Pow256(i) % 256
    ensures Frame(crc, p)[4 + i] as int == crc(p) / Pow256(i) % 256
  {
    assert Pow256(1) == 256 && Pow256(2) == 65536 && Pow256(3) == 16777216;
  }

  /** A segment file holding the payloads `ps`. */
  function Encode(crc: Checksum, ps: seq<Bytes>): Bytes
    requires AllFit(ps)
  {
    if ps == [] then [] else Frame(crc, ps[0]) + Encode(crc, ps[1..])
  }

  /** A whole, undamaged frame starts at the beginning of `bytes`. */
  predicate HasFrame(crc: Checksum, bytes: Bytes) {
    HEADER_BYTES <= |bytes| &&
    var len := FromLe32(bytes[..4]);
    HEADER_BYTES + len <= |bytes| && crc(bytes[HEADER_BYTES..HEADER_BYTES + len]) == FromLe32(bytes[4..8])
  }

  function HeadPayload(crc: Checksum, bytes: Bytes): (p: Bytes)
    requires HasFrame(crc, bytes)
    ensures Fits(p) && HEADER_BYTES + |p| <= |bytes|
  {
    bytes[HEADER_BYTES..HEADER_BYTES + FromLe32(bytes[..4])]
  }

  /** The payloads of the undamaged frames at the beginning of `bytes`. */
  function Scan(crc: Checksum, bytes: Bytes): (ps: seq<Bytes>)
    ensures AllFit(ps)
    decreases |bytes|
  {
    if HasFrame(crc, bytes) then
      var p := HeadPayload(crc, bytes);
      [p] + Scan(crc, bytes[HEADER_BYTES + |p|..])
    else []
  }

  /** A frame at the head is recognised, whatever follows it. */
  lemma FrameRecognised(crc: Checksum, p: Bytes, rest: Bytes)
    requires Fits(p)
    ensures HasFrame(crc, Frame(crc, p) + rest) && HeadPayload(crc, Frame(crc, p) + rest) == p
  {
    var bytes := Frame(crc, p) + rest;
    assert bytes[..4] == Le32(|p|) && bytes[4..8] == Le32(crc(p));
    WordRoundTrip(|p|);
    WordRoundTrip(crc(p));
    assert bytes[HEADER_BYTES..HEADER_BYTES + |p|] == p;
  }

  /** A recognised head is a frame of its payload. */
  lemma HeadIsFrame(crc: Checksum, bytes: Bytes)
    requires HasFrame(crc, bytes)
    ensures var p := HeadPayload(crc, bytes);
            bytes == Frame(crc, p) + bytes[HEADER_BYTES + |p|..]
  {
    BytesRoundTrip(bytes[..4]);
    BytesRoundTrip(bytes[4..8]);
  }

  lemma {:induction false} EncodeConcat(crc: Checksum, ps: seq<Bytes>, qs: seq<Bytes>)
    requires AllFit(ps) && AllFit(qs)
    ensures AllFit(ps + qs) && Encode(crc, ps + qs) == Encode(crc, ps) + Encode(crc, qs)
  {
    if ps == [] {
      assert ps + qs == qs;
    } else {
      EncodeConcat(crc, ps[1..], qs);
      assert (ps + qs)[1..] == ps[1..] + qs;
      assert Frame(crc, ps[0]) + (Encode(crc, ps[1..]) + Encode(crc, qs))
          == (Frame(crc, ps[0]) + Encode(crc, ps[1..])) + Encode(crc, qs);
    }
  }

  /** Appending a frame to a file appends its payload to the records. */
  lemma EncodeSnoc(crc: Checksum, ps: seq<Bytes>, p: Bytes)
    requires AllFit(ps) && Fits(p)
    ensures AllFit(ps + [p]) && Encode(crc, ps + [p]) == Encode(crc, ps) + Frame(crc, p)
  {
    EncodeConcat(crc, ps, [p]);
    assert Encode(crc, [p]) == Frame(crc, p) + Encode(crc, []) == Frame(crc, p);
  }

  // ---------------------------------------------------------------- codec laws

  /** Reading the frame at the head leaves the rest to be scanned on its own. */
  lemma ScanFrame(crc: Checksum, p: Bytes, rest: Bytes)
    requires Fits(p)
    ensures Scan(crc, Frame(crc, p) + rest) == [p] + Scan(crc, rest)
  {
    var bytes := Frame(crc, p) + rest;
    FrameRecognised(crc, p, rest);
    assert bytes[HEADER_BYTES + |p|..] == rest;
  }

  /** Garbage after valid frames never removes one; what follows is scanned on its own. */
  lemma {:induction false} ScanAppended(crc: Checksum, ps: seq<Bytes>, tail: Bytes)
    requires AllFit(ps)
    ensures Scan(crc, Encode(crc, ps) + tail) == ps + Scan(crc, tail)
  {
    hide Frame, Scan;
    if ps == [] {
      assert Encode(crc, ps) + tail == tail;
    } else {
      var rest := Encode(crc, ps[1..]) + tail;
      assert Encode(crc, ps) + tail == Frame(crc, ps[0]) + rest;
      ScanFrame(crc, ps[0], rest);
      ScanAppended(crc, ps[1..], tail);
      assert [ps[0]] + (ps[1..] + Scan(crc, tail)) == ps + Scan(crc, tail);
    }
  }

  /** Scanning an encoded list gives the list back. */
  lemma ScanEncode(crc: Checksum, ps: seq<Bytes>)
    requires AllFit(ps)
    ensures Scan(crc, Encode(crc, ps)) == ps
  {
    ScanAppended(crc, ps, []);
    assert Encode(crc, ps) + [] == Encode(crc, ps);
    assert Scan(crc, []) == [] && ps + [] == ps;
  }

  /** For arbitrary bytes, the valid part is exactly the re-encoding of what was read. */
  lemma {:induction false} ScanReencodes(crc: Checksum, bytes: Bytes)
    ensures Encode(crc, Scan(crc, bytes)) <= bytes
    decreases |bytes|
  {
    if HasFrame(crc, bytes) {
      var p := HeadPayload(crc, bytes);
      var rest := bytes[HEADER_BYTES + |p|..];
      HeadIsFrame(crc, bytes);
      ScanReencodes(crc, rest);
      assert Scan(crc, bytes)[1..] == Scan(crc, rest);
    }
  }

  /** Cutting a file at its valid length changes nothing a scan sees. */
  lemma ScanFixedPoint(crc: Checksum, bytes: Bytes)
    ensures var valid := |Encode(crc, Scan(crc, bytes))|;
            valid <= |bytes| && Scan(crc, bytes[..valid]) == Scan(crc, bytes)
  {
    var ps := Scan(crc, bytes);
    ScanReencodes(crc, bytes);
    assert bytes[..|Encode(crc, ps)|] == Encode(crc, ps);
    ScanEncode(crc, ps);
  }

  /** A frame cut short is not a frame. */
  lemma TornFrame(crc: Checksum, p: Bytes, k: nat)
    requires Fits(p) && k < |Frame(crc, p)|
    ensures Scan(crc, Frame(crc, p)[..k]) == []
  {
    var cut := Frame(crc, p)[..k];
    if HEADER_BYTES <= k {
      assert cut[..4] == Le32(|p|);
      WordRoundTrip(|p|);
    }
  }

  /**
   A torn file: any byte prefix of an encoded list scans to the records that lie wholly inside it,
   so to a prefix of the list.
   */
  lemma {:induction false} TornTail(crc: Checksum, ps: seq<Bytes>, k: nat)
    requires AllFit(ps) && k <= |Encode(crc, ps)|
    ensures var read := Scan(crc, Encode(crc, ps)[..k]);
            && read <= ps && |Encode(crc, read)| <= k
            && (|read| < |ps| ==> k < |Encode(crc, ps[..|read| + 1])|)
  {
    if ps != [] {
      hide Frame, Scan;
      if k < |Frame(crc, ps[0])| {
        assert Encode(crc, ps)[..k] == Frame(crc, ps[0])[..k];
        TornFrame(crc, ps[0], k);
        EncodeHead(crc, ps, 0);
      } else {
        var f := |Frame(crc, ps[0])|;
        var inner := Encode(crc, ps[1..])[..k - f];
        assert Encode(crc, ps)[..k] == Frame(crc, ps[0]) + inner;
        TornTail(crc, ps[1..], k - f);
        ScanFrame(crc, ps[0], inner);
        TornRest(crc, ps, Scan(crc, inner), k - f);
      }
    }
  }

  /** What holds of the records after the first holds of all of them. */
  lemma TornRest(crc: Checksum, ps: seq<Bytes>, read: seq<Bytes>, k: nat)
    requires ps != [] && AllFit(ps) && AllFit(read) && read <= ps[1..] && |Encode(crc, read)| <= k
    requires |read| < |ps| - 1 ==> k < |Encode(crc, ps[1..][..|read| + 1])|
    ensures var all, f := [ps[0]] + read, |Frame(crc, ps[0])|;
            && all <= ps && |Encode(crc, all)| <= k + f
            && (|all| < |ps| ==> k + f < |Encode(crc, ps[..|all| + 1])|)
  {
    var all := [ps[0]] + read;
    assert all[1..] == read;
    if |all| < |ps| {
      EncodeHead(crc, ps, |all|);
      assert ps[1..][..|read| + 1] == ps[1..|all| + 1];
    }
  }

  /** The first `j + 1` records take the first frame and then `j` more. */
  lemma EncodeHead(crc: Checksum, ps: seq<Bytes>, j: nat)
    requires AllFit(ps) && j < |ps|
    ensures AllFit(ps[..j + 1]) && AllFit(ps[1..j + 1])
    ensures Encode(crc, ps[..j + 1]) == Frame(crc, ps[0]) + Encode(crc, ps[1..j + 1])
  {
    assert ps[..j + 1][1..] == ps[1..j + 1];
  }

  /** Every record whose frame lies inside a prefix of the file is read back from that prefix. */
  lemma KeptByPrefix(crc: Checksum, ps: seq<Bytes>, j: nat, k: nat)
    requires AllFit(ps) && j <= |ps| && |Encode(crc, ps[..j])| <= k <= |Encode(crc, ps)|
    ensures ps[..j] <= Scan(crc, Encode(crc, ps)[..k])
  {
    assert ps == ps[..j] + ps[j..];
    EncodeConcat(crc, ps[..j], ps[j..]);
    var head := Encode(crc, ps[..j]);
    var bytes := Encode(crc, ps)[..k];
    assert bytes == head + bytes[|head|..];
    ScanAppended(crc, ps[..j], bytes[|head|..]);
  }

  // ---------------------------------------------------------------- the scan loop

  /** Where a record's payload lies in its segment file. */
  datatype Loc = Loc(index: nat, offset: nat, len: nat)

  /** Byte offset of the frame of record `j`. */
  function OffsetOf(crc: Checksum, ps: seq<Bytes>, j: nat): nat
    requires AllFit(ps) && j <= |ps|
  {
    |Encode(crc, ps[..j])|
  }

  /** The frame of record `j`, as bytes of the file. */
  lemma PayloadAt(crc: Checksum, ps: seq<Bytes>, j: nat)
    requires AllFit(ps) && j < |ps|
    ensures var at := OffsetOf(crc, ps, j) + HEADER_BYTES;
            at + |ps[j]| == OffsetOf(crc, ps, j + 1) <= |Encode(crc, ps)| && Encode(crc, ps)[at..at + |ps[j]|] == ps[j]
  {
    hide Encode;
    EncodeSnoc(crc, ps[..j], ps[j]);
    assert ps[..j + 1] == ps[..j] + [ps[j]];
    EncodeConcat(crc, ps[..j + 1], ps[j + 1..]);
    assert ps == ps[..j + 1] + ps[j + 1..];
    var head := Encode(crc, ps[..j]);
    assert Encode(crc, ps) == head + Frame(crc, ps[j]) + Encode(crc, ps[j + 1..]);
  }

  /** `locs` gives the records `ps` of a segment consecutive indexes and their exact positions. */
  predicate Locates(crc: Checksum, start: nat, ps: seq<Bytes>, locs: seq<Loc>) {
    AllFit(ps) && |locs| == |ps| &&
    forall i :: 0 <= i < |ps| ==> locs[i] == Loc(start + i, OffsetOf(crc, ps, i) + HEADER_BYTES, |ps[i]|)
  }

  /** `scan_segment`: consecutive indexes, exact payload positions, and the length of the valid part. */
  method ScanSegment(crc: Checksum, start: nat, bytes: Bytes) returns (locs: seq<Loc>, validLen: nat)
    ensures Locates(crc, start, Scan(crc, bytes), locs)
    ensures validLen == |Encode(crc, Scan(crc, bytes))| <= |bytes|
  {
    hide Encode, Scan, HasFrame, HeadPayload, FromLe32, Locates;
    ScanStart(crc, start, bytes);
    locs := [];
    var offset, index := 0, start;
    ghost var read: seq<Bytes> := [];
    while offset + HEADER_BYTES <= |bytes|
      invariant offset <= |bytes| && AllFit(read) && index == start + |read|
      invariant Locates(crc, start, read, locs) && ReadTo(crc, bytes, read, offset)
      decreases |bytes| - offset
    {
      var len := FromLe32(bytes[offset..offset + 4]);
      var sum := FromLe32(bytes[offset + 4..offset + 8]);
      var body := offset + HEADER_BYTES;
      FrameAt(crc, bytes, offset);
      if body + len > |bytes| {
        ScanEnd(crc, bytes, offset, read);
        break;
      }
      var payload := bytes[body..body + len];
      if crc(payload) != sum {
        ScanEnd(crc, bytes, offset, read);
        break;
      }
      ScanStep(crc, bytes, offset, read, payload);
      LocateStep(crc, start, read, locs, payload);
      locs := locs + [Loc(index, body, len)];
      read := read + [payload];
      offset := body + len;
      index := index + 1;
    }
    if offset + HEADER_BYTES > |bytes| {
      ScanEnd(crc, bytes, offset, read);
    }
    validLen := offset;
  }

  /** The frames of `read` end at `offset`, and the scan goes on from there. */
  ghost predicate ReadTo(crc: Checksum, bytes: Bytes, read: seq<Bytes>, offset: nat)
    requires offset <= |bytes| && AllFit(read)
  {
    offset == |Encode(crc, read)| && Scan(crc, bytes) == read + Scan(crc, bytes[offset..])
  }

  lemma ScanStart(crc: Checksum, start: nat, bytes: Bytes)
    ensures Locates(crc, start, [], []) && ReadTo(crc, bytes, [], 0)
  {
    assert bytes[0..] == bytes;
  }

  /** Where no frame starts the scan is over. */
  lemma ScanEnd(crc: Checksum, bytes: Bytes, offset: nat, read: seq<Bytes>)
    requires offset <= |bytes| && AllFit(read) && ReadTo(crc, bytes, read, offset)
    requires offset + HEADER_BYTES > |bytes| || !HasFrame(crc, bytes[offset..])
    ensures Scan(crc, bytes) == read
  {
    assert read + [] == read;
  }

  /** The frame test of the loop, on the whole file, is the frame test on the rest of it. */
  lemma FrameAt(crc: Checksum, bytes: Bytes, offset: nat)
    requires offset + HEADER_BYTES <= |bytes|
    ensures var len, body, rest := FromLe32(bytes[offset..offset + 4]), offset + HEADER_BYTES, bytes[offset..];
            && (HasFrame(crc, rest) <==>
                  body + len <= |bytes| && crc(bytes[body..body + len]) == FromLe32(bytes[offset + 4..offset + 8]))
            && (HasFrame(crc, rest) ==> HeadPayload(crc, rest) == bytes[body..body + len])
  {
    var len, rest := FromLe32(bytes[offset..offset + 4]), bytes[offset..];
    assert rest[..4] == bytes[offset..offset + 4] && rest[4..8] == bytes[offset + 4..offset + 8];
    if HEADER_BYTES + len <= |rest| {
      assert rest[HEADER_BYTES..HEADER_BYTES + len] == bytes[offset + HEADER_BYTES..offset + HEADER_BYTES + len];
    }
  }

  lemma ScanHead(crc: Checksum, bytes: Bytes)
    requires HasFrame(crc, bytes)
    ensures var p := HeadPayload(crc, bytes);
            Scan(crc, bytes) == [p] + Scan(crc, bytes[HEADER_BYTES + |p|..])
  {
  }

  /** One more frame read: the records grow by its payload. */
  lemma ScanStep(crc: Checksum, bytes: Bytes, offset: nat, read: seq<Bytes>, payload: Bytes)
    requires offset <= |bytes| && AllFit(read) && ReadTo(crc, bytes, read, offset)
    requires HasFrame(crc, bytes[offset..]) && payload == HeadPayload(crc, bytes[offset..])
    ensures var more, end := read + [payload], offset + HEADER_BYTES + |payload|;
            end <= |bytes| && AllFit(more) && ReadTo(crc, bytes, more, end)
  {
    hide Encode, Frame, Scan, HasFrame, HeadPayload;
    var more, end := read + [payload], offset + HEADER_BYTES + |payload|;
    EncodeSnoc(crc, read, payload);
    ScanHead(crc, bytes[offset..]);
    assert bytes[offset..][HEADER_BYTES + |payload|..] == bytes[end..];
    assert read + ([payload] + Scan(crc, bytes[end..])) == more + Scan(crc, bytes[end..]);
  }

  /** One more record: the positions before it stay, and its own payload follows the last frame. */
  lemma LocateStep(crc: Checksum, start: nat, ps: seq<Bytes>, locs: seq<Loc>, p: Bytes)
    requires Locates(crc, start, ps, locs) && Fits(p)
    ensures Locates(crc, start, ps + [p], locs + [Loc(start + |ps|, |Encode(crc, ps)| + HEADER_BYTES, |p|)])
  {
    hide Encode;
    forall i | 0 <= i <= |ps| ensures OffsetOf(crc, ps + [p], i) == OffsetOf(crc, ps, i) {
      assert (ps + [p])[..i] == ps[..i];
    }
    assert ps[..|ps|] == ps;
  }
}
