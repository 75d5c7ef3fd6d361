/**
 Appends past a gap: the indexes between the last file and the first record were purged. Records
 written before the next rotation go to the end of the last file, and a reopen counts them from there.
 */
module LogGaps {
  import opened Outcome
  import opened Frames
  import opened Segments
  import opened LogIndex
  import opened SegmentedLogs

  /** What the frames of the payloads take. */
  function FrameBytes(ps: seq<Bytes>): nat {
    if ps == [] then 0 else FrameBytes(ps[..|ps| - 1]) + HEADER_BYTES + |ps[|ps| - 1]|
  }

  /** How many of the payloads go to the active file before a rotation is due. */
  function Filling(active: Option<Active>, maxBytes: nat, ps: seq<Bytes>): (r: nat)
    ensures r <= |ps| && (active.None? ==> r == 0)
  {
    if ps == [] then 0
    else
      var n := |ps| - 1;
      var r := Filling(active, maxBytes, ps[..n]);
      if r == n && active.Some? && active.value.bytes + FrameBytes(ps[..n]) < maxBytes then n + 1 else r
  }

  /** The next payload goes there too, unless one of them was refused already or the file is full. */
  lemma FillingSnoc(active: Option<Active>, maxBytes: nat, ps: seq<Bytes>, p: Bytes)
    ensures var r := Filling(active, maxBytes, ps);
            Filling(active, maxBytes, ps + [p]) == if r == |ps| && active.Some? && active.value.bytes + FrameBytes(ps) < maxBytes then r + 1 else r
    ensures FrameBytes(ps + [p]) == FrameBytes(ps) + HEADER_BYTES + |p|
  {
    assert (ps + [p])[..|ps|] == ps;
  }

  /** The first payload that finds the file full, and all after it, go elsewhere. */
  lemma {:induction false} FillingIs(active: Active, maxBytes: nat, ps: seq<Bytes>)
    ensures var r := Filling(Some(active), maxBytes, ps);
            && (forall j :: 0 <= j < r ==> active.bytes + FrameBytes(ps[..j]) < maxBytes)
            && (r < |ps| ==> maxBytes <= active.bytes + FrameBytes(ps[..r]))
    decreases |ps|
  {
    if ps != [] {
      var n := |ps| - 1;
      FillingIs(active, maxBytes, ps[..n]);
      assert forall j :: 0 <= j <= n ==> ps[..n][..j] == ps[..j];
    }
  }

  /** The index a record goes to. */
  function PlaceOf(segs: seq<Segment>, rotates: bool, index: nat): nat {
    if segs != [] && (!rotates || Last(segs).start == index) then Last(segs).End() else index
  }

  lemma RecordsGrown(g: Segment, p: Bytes)
    ensures RecordsOf(Grown(g, p)) == RecordsOf(g)[g.End() := p]
  {
    var grown := RecordsOf(Grown(g, p));
    assert grown.Keys == RecordsOf(g).Keys + {g.End()};
    forall k | k in grown ensures grown[k] == RecordsOf(g)[g.End() := p][k] { }
  }

  lemma RecordsOne(index: nat, p: Bytes)
    ensures RecordsOf(Segment(index, [p])).Keys == {index} && RecordsOf(Segment(index, [p]))[index] == p
  {
    assert index in RecordsOf(Segment(index, [p]));
  }

  lemma MergeUpdate(m: map<nat, Bytes>, n: map<nat, Bytes>, k: nat, p: Bytes)
    ensures m + n[k := p] == (m + n)[k := p]
  {
  }

  lemma OverlaySnoc(segs: seq<Segment>, g: Segment)
    ensures Overlay(segs + [g]) == Overlay(segs) + RecordsOf(g)
  {
    assert (segs + [g])[..|segs|] == segs;
  }

  lemma OverlayAppended(segs: seq<Segment>, rotates: bool, index: nat, p: Bytes)
    ensures var more := AppendedTo(segs, rotates, index, p);
            && Overlay(more) == Overlay(segs)[PlaceOf(segs, rotates, index) := p]
            && more != [] && Last(more).End() == PlaceOf(segs, rotates, index) + 1
  {
    hide RecordsOf, Overlay;
    if segs != [] && (!rotates || Last(segs).start == index) {
      var front, g := segs[..|segs| - 1], Last(segs);
      RecordsGrown(g, p);
      OverlaySnoc(front, g);
      OverlaySnoc(front, Grown(g, p));
      MergeUpdate(Overlay(front), RecordsOf(g), g.End(), p);
      assert segs == front + [g];
    } else {
      RecordsOne(index, p);
      OverlaySnoc(segs, Segment(index, [p]));
    }
  }

  /**
   What a reopen finds after `ps` were appended from index `start` on, `r` of them before a rotation:
   those `r` are counted from the end of the last file, the others stand under their own index.
   */
  ghost predicate Spread(before: seq<Segment>, start: nat, ps: seq<Bytes>, r: nat, after: seq<Segment>) {
    && r <= |ps| && (before == [] ==> r == 0)
    && (ps != [] ==> after != [] && Last(after).End() == if r < |ps| then start + |ps| else Last(before).End() + |ps|)
    && (ps == [] ==> after == before)
    && forall k {:trigger k in Overlay(after)} :: Get(Overlay(after), k) == SpreadAt(before, start, ps, r, k)
  }

  ghost function SpreadAt(before: seq<Segment>, start: nat, ps: seq<Bytes>, r: nat, k: nat): Option<Bytes>
    requires r <= |ps| && (before == [] ==> r == 0)
  {
    if start + r <= k < start + |ps| then Some(ps[k - start])
    else if before != [] && Last(before).End() <= k < Last(before).End() + r then Some(ps[k - Last(before).End()])
    else Get(Overlay(before), k)
  }

  lemma SpreadNone(segs: seq<Segment>, start: nat)
    ensures Spread(segs, start, [], 0, segs)
  {
    hide Overlay;
    forall k ensures Get(Overlay(segs), k) == SpreadAt(segs, start, [], 0, k) {
    }
  }

  /** One more append; `active` was the active file before the first. */
  lemma SpreadStep(before: seq<Segment>, start: nat, active: Option<Active>, maxBytes: nat, ps: seq<Bytes>, segs: seq<Segment>, rotates: bool, p: Bytes)
    requires Spread(before, start, ps, Filling(active, maxBytes, ps), segs) && (before != [] ==> Last(before).End() <= start) && ActiveAt(active, before)
    requires Filling(active, maxBytes, ps) == |ps| && active.Some? ==> (rotates <==> maxBytes <= active.value.bytes + FrameBytes(ps))
    ensures Spread(before, start, ps + [p], Filling(active, maxBytes, ps + [p]), AppendedTo(segs, rotates, start + |ps|, p))
  {
    hide AppendedTo, Overlay, Filling, FrameBytes;
    var index, more, ps' := start + |ps|, AppendedTo(segs, rotates, start + |ps|, p), ps + [p];
    var r, r' := Filling(active, maxBytes, ps), Filling(active, maxBytes, ps');
    FillingSnoc(active, maxBytes, ps, p);
    OverlayAppended(segs, rotates, index, p);
    assert segs != [] ==> Last(segs).start <= Last(segs).End();
    assert PlaceOf(segs, rotates, index) == if r' == |ps'| then Last(before).End() + |ps| else index;
    forall k ensures Get(Overlay(more), k) == SpreadAt(before, start, ps', r', k) {
      assert Get(Overlay(segs), k) == SpreadAt(before, start, ps, r, k);
    }
  }
}
