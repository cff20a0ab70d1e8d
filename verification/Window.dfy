/** What a DVR window query selects, stated on the set of recorded rows alone: no keys, no bytes, no scan. */
module Window {
  import opened Bytes
  import opened Segment

  predicate SameKey(a: SegmentRef, b: SegmentRef) {
    a.broadcast == b.broadcast && a.track == b.track && a.startDts == b.startDts
  }

  /** What `record` accepts. */
  predicate Storable(s: SegmentRef) {
    NamesFit(s.broadcast, s.track) && s.startDts < s.endDts
  }

  /** The recorded rows after one more `record`: a row with the same key is overwritten. */
  ghost function Recorded(rows: set<SegmentRef>, s: SegmentRef): set<SegmentRef> {
    (set r | r in rows && !SameKey(r, s)) + {s}
  }

  /** ... and after any sequence of them, in which the refused ones change nothing. */
  ghost function AllRecorded(segs: seq<SegmentRef>): set<SegmentRef> {
    if segs == [] then {}
    else
      var before, s := AllRecorded(segs[..|segs| - 1]), segs[|segs| - 1];
      if Storable(s) then Recorded(before, s) else before
  }

  ghost predicate Ascending(rows: seq<SegmentRef>) {
    forall i, j :: 0 <= i < j < |rows| ==> rows[i].startDts < rows[j].startDts
  }

  predicate OfStream(s: SegmentRef, broadcast: Str, track: Str) {
    s.broadcast == broadcast && s.track == track
  }

  /** The documented meaning of a hit: the extents `[startDts, endDts)` and `[lo, hi)` meet. */
  predicate Overlaps(s: SegmentRef, lo: u64, hi: u64) {
    s.startDts < hi && lo < s.endDts
  }

  /** Two rows of the stream both start before the window, and the earlier one still reaches into it. */
  ghost predicate Hidden(rows: set<SegmentRef>, broadcast: Str, track: Str, lo: u64, earlier: SegmentRef,
                         later: SegmentRef)
  {
    earlier in rows && later in rows && OfStream(earlier, broadcast, track) && OfStream(later, broadcast, track)
    && earlier.startDts < later.startDts < lo < earlier.endDts
  }

  /** What two key scans select: every row starting in the window, and of the rows starting before it only the
      last one, when it reaches into the window. */
  ghost predicate Selected(rows: set<SegmentRef>, broadcast: Str, track: Str, lo: u64, hi: u64, s: SegmentRef) {
    lo < hi && s in rows && OfStream(s, broadcast, track) && s.startDts < hi
    && (s.startDts < lo ==> lo < s.endDts)
    && (s.startDts < lo ==>
          forall r :: r in rows && OfStream(r, broadcast, track) && r.startDts < lo ==> r.startDts <= s.startDts)
  }

  /** Two rows of the stream, the first starting before the second. */
  ghost predicate InOrder(rows: set<SegmentRef>, broadcast: Str, track: Str, a: SegmentRef, b: SegmentRef) {
    a in rows && b in rows && OfStream(a, broadcast, track) && OfStream(b, broadcast, track) && a.startDts < b.startDts
  }

  ghost predicate Disjoint(rows: set<SegmentRef>, broadcast: Str, track: Str) {
    forall a, b :: InOrder(rows, broadcast, track, a, b) ==> a.endDts <= b.startDts
  }

  ghost predicate PositiveExtents(rows: set<SegmentRef>) {
    forall s :: s in rows ==> s.startDts < s.endDts
  }

  /** The answer to a window query is the documented one. */
  ghost predicate Complete(rows: set<SegmentRef>, broadcast: Str, track: Str, lo: u64, hi: u64) {
    forall s :: s in rows && OfStream(s, broadcast, track) && Overlaps(s, lo, hi)
      ==> Selected(rows, broadcast, track, lo, hi, s)
  }

  /** Every selected row is an overlap, always. */
  lemma SelectedOverlaps(rows: set<SegmentRef>, broadcast: Str, track: Str, lo: u64, hi: u64, s: SegmentRef)
    requires PositiveExtents(rows) && Selected(rows, broadcast, track, lo, hi, s)
    ensures s in rows && OfStream(s, broadcast, track) && Overlaps(s, lo, hi)
  {
  }

  /** One window is answered completely exactly when no row is hidden behind a later predecessor. */
  lemma {:induction false} CompleteIffNoneHidden(rows: set<SegmentRef>, broadcast: Str, track: Str, lo: u64, hi: u64)
    requires lo < hi
    ensures Complete(rows, broadcast, track, lo, hi) <==> !exists a, b :: Hidden(rows, broadcast, track, lo, a, b)
  {
    if a, b :| Hidden(rows, broadcast, track, lo, a, b) {
      assert Overlaps(a, lo, hi) && !Selected(rows, broadcast, track, lo, hi, a);
    } else if s :| s in rows && OfStream(s, broadcast, track) && Overlaps(s, lo, hi)
                   && !Selected(rows, broadcast, track, lo, hi, s) {
      var r :| r in rows && OfStream(r, broadcast, track) && r.startDts < lo && s.startDts < r.startDts;
      assert Hidden(rows, broadcast, track, lo, s, r);
    }
  }

  /** All windows of a stream are answered completely exactly when no row runs more than one tick past the start
      of a later row. */
  lemma {:induction false} AllWindowsComplete(rows: set<SegmentRef>, broadcast: Str, track: Str)
    ensures (forall lo: u64, hi: u64 :: lo < hi ==> Complete(rows, broadcast, track, lo, hi))
       <==> (forall a, b :: InOrder(rows, broadcast, track, a, b) ==> a.endDts <= b.startDts + 1)
  {
    if a, b :| InOrder(rows, broadcast, track, a, b) && a.endDts > b.startDts + 1 {
      var lo: u64 := b.startDts + 1;
      assert Hidden(rows, broadcast, track, lo, a, b);
      CompleteIffNoneHidden(rows, broadcast, track, lo, a.endDts);
    } else {
      forall lo: u64, hi: u64 | lo < hi
        ensures Complete(rows, broadcast, track, lo, hi)
      {
        CompleteIffNoneHidden(rows, broadcast, track, lo, hi);
      }
    }
  }

  /** With pairwise disjoint extents every window is answered completely. */
  lemma DisjointStreamsAreComplete(rows: set<SegmentRef>, broadcast: Str, track: Str, lo: u64, hi: u64)
    requires lo < hi && Disjoint(rows, broadcast, track)
    ensures Complete(rows, broadcast, track, lo, hi)
  {
    CompleteIffNoneHidden(rows, broadcast, track, lo, hi);
  }

  /** `answer` lists exactly the rows of the stream that overlap the window, in order. */
  ghost predicate AllOverlaps(rows: set<SegmentRef>, broadcast: Str, track: Str, lo: u64, hi: u64,
                              answer: seq<SegmentRef>)
  {
    Ascending(answer)
    && forall s :: s in answer <==> s in rows && OfStream(s, broadcast, track) && Overlaps(s, lo, hi)
  }

  /** The documented answer is given exactly when no row is hidden, disjoint extents being enough; and the window
      `[0, u64::MAX)` is answered with the whole stream in any case. */
  lemma {:induction false} AnswerIff(rows: set<SegmentRef>, broadcast: Str, track: Str, lo: u64, hi: u64,
                                     answer: seq<SegmentRef>)
    requires PositiveExtents(rows) && lo < hi && Ascending(answer)
    requires forall s :: s in answer <==> Selected(rows, broadcast, track, lo, hi, s)
    ensures AllOverlaps(rows, broadcast, track, lo, hi, answer) <==>
              !exists a, b :: Hidden(rows, broadcast, track, lo, a, b)
    ensures Disjoint(rows, broadcast, track) ==> AllOverlaps(rows, broadcast, track, lo, hi, answer)
    ensures lo == 0 && hi == U64_MAX ==> forall s :: s in answer <==> s in rows && OfStream(s, broadcast, track)
  {
    CompleteIffNoneHidden(rows, broadcast, track, lo, hi);
    if Disjoint(rows, broadcast, track) {
      DisjointStreamsAreComplete(rows, broadcast, track, lo, hi);
    }
    forall s | s in answer ensures s in rows && OfStream(s, broadcast, track) && Overlaps(s, lo, hi) {
      SelectedOverlaps(rows, broadcast, track, lo, hi, s);
    }
    hide Hidden, Disjoint, Selected, PositiveExtents;
  }

  /** The window `[0, u64::MAX)` selects the whole stream, overlapping extents or not. */
  lemma WholeStreamSelected(rows: set<SegmentRef>, broadcast: Str, track: Str, s: SegmentRef)
    requires PositiveExtents(rows)
    ensures Selected(rows, broadcast, track, 0, U64_MAX, s) <==> s in rows && OfStream(s, broadcast, track)
  {
  }

  /** A stream on which the documented promise fails: the long first row is missing from the answer. */
  lemma {:induction false} HiddenRowExample(name: Str, lo: u64, hi: u64)
    requires lo == 200 && hi == 300
    ensures var long := SegmentRef(name, name, 1, 0, 1000, 1, true, [], 0, 0);
            var short := SegmentRef(name, name, 2, 100, 150, 1, true, [], 0, 0);
            Overlaps(long, lo, hi) && !Selected({long, short}, name, name, lo, hi, long)
  {
    var long := SegmentRef(name, name, 1, 0, 1000, 1, true, [], 0, 0);
    var short := SegmentRef(name, name, 2, 100, 150, 1, true, [], 0, 0);
    assert Hidden({long, short}, name, name, lo, long, short);
  }

  /** An answer is determined by its members: there is one way to list a set of rows by ascending dts. */
  lemma {:induction false} AscendingUnique(a: seq<SegmentRef>, b: seq<SegmentRef>)
    requires Ascending(a) && Ascending(b) && forall s :: s in a <==> s in b
    ensures a == b
  {
    if a == [] {
      if b != [] {
        Inhabited(b);
        assert false;
      }
    } else {
      var n, m := |a| - 1, |b| - 1;
      assert a[n] in a && a[n] in b;
      assert b[m] in b && b[m] in a;
      assert a[n] == b[m];
      WithoutLast(a);
      WithoutLast(b);
      forall s
        ensures s in a[..n] <==> s in b[..m]
      {
        assert s in a <==> s in b;
      }
      AscendingUnique(a[..n], b[..m]);
    }
  }

  lemma WithoutLast(a: seq<SegmentRef>)
    requires Ascending(a) && a != []
    ensures a == a[..|a| - 1] + [a[|a| - 1]] && Ascending(a[..|a| - 1])
    ensures forall s :: s in a[..|a| - 1] <==> s in a && s != a[|a| - 1]
  {
    var n := |a| - 1;
    assert a == a[..n] + [a[n]];
    forall i | 0 <= i < n
      ensures a[i] != a[n]
    {
    }
  }

  lemma Inhabited(a: seq<SegmentRef>)
    requires a != []
    ensures exists s :: s in a
  {
    assert a[0] in a;
  }
}
