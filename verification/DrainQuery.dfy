/** DVR queries against what a drain run has archived (crates/lvqr-cli/src/archive.rs `drain`,
    crates/lvqr-archive/src/index.rs `find_range`). */
module DrainQuery {
  import opened Bytes
  import opened Segment
  import opened Window
  import opened Writer
  import opened Drain
  import Index

  /** The extents `[dts, dts + duration)` of the kept fragments do not meet. */
  ghost predicate DisjointFragments(fs: seq<Fragment>) {
    forall i, j :: 0 <= i < |fs| && 0 <= j < |fs| && i != j && fs[i].duration > 0 && fs[j].duration > 0 ==>
      fs[i].dts + fs[i].duration <= fs[j].dts || fs[j].dts + fs[j].duration <= fs[i].dts
  }

  /** The fragment is kept and its extent meets the window. */
  predicate Meets(f: Fragment, lo: u64, hi: u64) {
    f.duration > 0 && f.dts < hi && lo < f.dts + f.duration
  }

  /** The row is the one of that fragment, and its file holds the payload. */
  ghost predicate Plays(t: Track, files: Files, f: Fragment, s: SegmentRef) {
    OfStream(s, t.broadcast, t.name) && Spans(s, f) && s.timescale == t.timescale && s.keyframeStart == f.keyframe
    && s.length == |f.payload| && s.path in files && files[s.path] == f.payload
  }

  ghost predicate RowOfTrack(t: Track, end: World, s: SegmentRef) {
    s in end.rows && OfStream(s, t.broadcast, t.name)
  }

  /** Fragment `i` is the one that row stands for. */
  ghost predicate PlayedBy(t: Track, fs: seq<Fragment>, end: World, s: SegmentRef, i: nat) {
    i < |fs| && fs[i].duration > 0 && Plays(t, end.files, fs[i], s)
  }

  ghost predicate HasFragment(t: Track, fs: seq<Fragment>, end: World, s: SegmentRef) {
    exists i: nat :: PlayedBy(t, fs, end, s, i)
  }

  ghost predicate HasRow(t: Track, fs: seq<Fragment>, end: World, i: nat) {
    exists s :: s in end.rows && PlayedBy(t, fs, end, s, i)
  }

  /** The rows of the track and the kept fragments are each other's. */
  ghost predicate Archived(t: Track, fs: seq<Fragment>, end: World) {
    (forall s :: RowOfTrack(t, end, s) ==> HasFragment(t, fs, end, s))
    && forall i: nat :: i < |fs| && fs[i].duration > 0 ==> HasRow(t, fs, end, i)
  }

  lemma {:induction false} CompleteRunArchives(t: Track, fs: seq<Fragment>, files: Files, rows: set<SegmentRef>,
                                               end: World)
    requires Archivable(t, fs) && DistinctDts(fs) && Completes(t, fs, files, rows, end)
    ensures Archived(t, fs, end)
  {
    RunArchivesEveryJob(t, fs, files, rows, end);
    var jobs := Jobs(t, fs);
    var from := JobsAreNumbered(t, fs);
    hide *;
    NumberedIsArchived(t, fs, end, jobs, from);
  }

  lemma NumberedIsArchived(t: Track, fs: seq<Fragment>, end: World, jobs: seq<Job>, from: seq<nat>)
    requires Numbered(t, fs, jobs, from)
    requires forall s :: s in end.rows && OfStream(s, t.broadcast, t.name)
                     <==> exists k :: 0 <= k < |jobs| && jobs[k].seg == s
    requires forall k :: 0 <= k < |jobs| ==>
               jobs[k].seg.path in end.files && end.files[jobs[k].seg.path] == jobs[k].payload
    ensures Archived(t, fs, end)
  {
    hide ValidUtf8, SegmentPath, Spans, OfStream;
    forall k | 0 <= k < |jobs| ensures Plays(t, end.files, fs[from[k]], jobs[k].seg) {
      assert Archives(t, fs[from[k]], k + 1, jobs[k]);
    }
    hide Plays, Archives;
    forall s | RowOfTrack(t, end, s) ensures HasFragment(t, fs, end, s) {
      var k :| 0 <= k < |jobs| && jobs[k].seg == s;
      assert from[k] in from && PlayedBy(t, fs, end, s, from[k]);
    }
    forall i: nat | i < |fs| && fs[i].duration > 0 ensures HasRow(t, fs, end, i) {
      var k :| 0 <= k < |from| && from[k] == i;
      assert PlayedBy(t, fs, end, jobs[k].seg, i);
    }
  }

  lemma RowIsPlayed(t: Track, fs: seq<Fragment>, end: World, s: SegmentRef) returns (i: nat)
    requires Archived(t, fs, end) && s in end.rows && OfStream(s, t.broadcast, t.name)
    ensures i < |fs| && fs[i].duration > 0 && Plays(t, end.files, fs[i], s)
  {
    hide Plays, OfStream;
    assert RowOfTrack(t, end, s);
    i :| PlayedBy(t, fs, end, s, i);
  }

  lemma FragmentIsPlayed(t: Track, fs: seq<Fragment>, end: World, i: nat) returns (s: SegmentRef)
    requires Archived(t, fs, end) && i < |fs| && fs[i].duration > 0
    ensures s in end.rows && Plays(t, end.files, fs[i], s)
  {
    hide Plays, OfStream;
    assert HasRow(t, fs, end, i);
    s :| s in end.rows && PlayedBy(t, fs, end, s, i);
  }

  /** The rows of disjoint fragments are disjoint. */
  lemma RowsAreDisjoint(t: Track, fs: seq<Fragment>, end: World)
    requires DisjointFragments(fs) && Archived(t, fs, end)
    ensures Disjoint(end.rows, t.broadcast, t.name)
  {
    hide ValidUtf8, Archived;
    forall a, b | InOrder(end.rows, t.broadcast, t.name, a, b) ensures a.endDts <= b.startDts {
      var i := RowIsPlayed(t, fs, end, a);
      var j := RowIsPlayed(t, fs, end, b);
      assert Spans(a, fs[i]) && Spans(b, fs[j]) && i != j;
    }
  }

  /** Which fragments each row of an answer stands for. */
  ghost predicate Answers(t: Track, fs: seq<Fragment>, files: Files, lo: u64, hi: u64, answer: seq<SegmentRef>,
                          met: seq<nat>)
  {
    |met| == |answer| && (forall i: nat :: i in met <==> i < |fs| && Meets(fs[i], lo, hi))
    && (forall k, m :: 0 <= k < m < |met| ==> met[k] < |fs| && met[m] < |fs| && fs[met[k]].dts < fs[met[m]].dts)
    && forall k :: 0 <= k < |met| ==> met[k] < |fs| && Plays(t, files, fs[met[k]], answer[k])
  }

  lemma SelectedIffMeets(t: Track, end: World, lo: u64, hi: u64, f: Fragment, s: SegmentRef)
    requires Disjoint(end.rows, t.broadcast, t.name) && lo < hi
    requires s in end.rows && f.duration > 0 && f.dts < U64_MAX && Plays(t, end.files, f, s)
    ensures Selected(end.rows, t.broadcast, t.name, lo, hi, s) <==> Meets(f, lo, hi)
  {
    DisjointStreamsAreComplete(end.rows, t.broadcast, t.name, lo, hi);
    assert Overlaps(s, lo, hi) <==> Meets(f, lo, hi);
    hide Disjoint;
  }

  /** Once all tasks of a run of disjoint fragments are done, a query is answered with exactly the fragments whose
      extent meets the window, each once, by dts, and the files hold their payloads. */
  lemma {:induction false} WindowAnswersFragments(t: Track, fs: seq<Fragment>, end: World, lo: u64, hi: u64,
                                                  answer: seq<SegmentRef>)
    returns (met: seq<nat>)
    requires Archivable(t, fs) && DisjointFragments(fs) && Archived(t, fs, end) && lo < hi
    requires Ascending(answer)
    requires forall s :: s in answer <==> Selected(end.rows, t.broadcast, t.name, lo, hi, s)
    ensures Answers(t, fs, end.files, lo, hi, answer, met)
  {
    RowsAreDisjoint(t, fs, end);
    hide Archived, DisjointFragments, Disjoint, Selected, Plays, Meets, Ascending, Archivable, PlayedBy;
    forall k | 0 <= k < |answer|
      ensures answer[k] in end.rows && OfStream(answer[k], t.broadcast, t.name)
    {
      assert answer[k] in answer;
      SelectedIsOfStream(end.rows, t, lo, hi, answer[k]);
    }
    met := PickFragments(t, fs, end, answer);
    forall i: nat ensures i in met <==> i < |fs| && Meets(fs[i], lo, hi) {
      MetIff(t, fs, end, lo, hi, answer, met, i);
    }
    InOrderOfDts(t, fs, end, answer, met);
  }

  lemma MetIff(t: Track, fs: seq<Fragment>, end: World, lo: u64, hi: u64, answer: seq<SegmentRef>, met: seq<nat>,
               i: nat)
    requires Archivable(t, fs) && DisjointFragments(fs) && Archived(t, fs, end) && lo < hi
    requires Disjoint(end.rows, t.broadcast, t.name)
    requires forall s :: s in answer <==> Selected(end.rows, t.broadcast, t.name, lo, hi, s)
    requires |met| == |answer| && forall m :: 0 <= m < |met| ==> PlayedBy(t, fs, end, answer[m], met[m])
    ensures i in met <==> i < |fs| && Meets(fs[i], lo, hi)
  {
    hide Archived, DisjointFragments, Disjoint, Selected, Meets, Archivable, PlayedBy, ValidUtf8;
    if i in met {
      var k :| 0 <= k < |met| && met[k] == i;
      assert answer[k] in answer;
      PlayedMeets(t, fs, end, lo, hi, answer[k], i);
    } else if i < |fs| && Meets(fs[i], lo, hi) {
      MetIsAnswered(t, fs, end, lo, hi, answer, met, i);
    }
  }

  lemma PickFragments(t: Track, fs: seq<Fragment>, end: World, answer: seq<SegmentRef>) returns (met: seq<nat>)
    requires Archived(t, fs, end)
    requires forall k :: 0 <= k < |answer| ==> answer[k] in end.rows && OfStream(answer[k], t.broadcast, t.name)
    ensures |met| == |answer| && forall m :: 0 <= m < |met| ==> PlayedBy(t, fs, end, answer[m], met[m])
  {
    hide Archived, Plays, OfStream, ValidUtf8;
    met := [];
    for k := 0 to |answer|
      invariant |met| == k && forall m :: 0 <= m < k ==> PlayedBy(t, fs, end, answer[m], met[m])
    {
      var i := RowIsPlayed(t, fs, end, answer[k]);
      met := met + [i];
    }
  }

  lemma PlayedMeets(t: Track, fs: seq<Fragment>, end: World, lo: u64, hi: u64, s: SegmentRef, i: nat)
    requires Archivable(t, fs) && Disjoint(end.rows, t.broadcast, t.name) && lo < hi
    requires PlayedBy(t, fs, end, s, i) && Selected(end.rows, t.broadcast, t.name, lo, hi, s)
    ensures i < |fs| && Meets(fs[i], lo, hi)
  {
    assert fs[i].dts < U64_MAX;
    SelectedIsOfStream(end.rows, t, lo, hi, s);
    hide Disjoint, Selected, Plays, Meets, Archivable;
    SelectedIffMeets(t, end, lo, hi, fs[i], s);
  }

  lemma InOrderOfDts(t: Track, fs: seq<Fragment>, end: World, answer: seq<SegmentRef>, met: seq<nat>)
    requires Ascending(answer) && |met| == |answer|
    requires forall m :: 0 <= m < |met| ==> PlayedBy(t, fs, end, answer[m], met[m])
    ensures forall k :: 0 <= k < |met| ==> met[k] < |fs| && Plays(t, end.files, fs[met[k]], answer[k])
    ensures forall k, m :: 0 <= k < m < |met| ==> fs[met[k]].dts < fs[met[m]].dts
  {
    hide Plays, ValidUtf8;
    forall k | 0 <= k < |met| ensures met[k] < |fs| && fs[met[k]].dts == answer[k].startDts {
      assert PlayedBy(t, fs, end, answer[k], met[k]);
      StartsTogether(t, end, fs[met[k]], answer[k]);
    }
  }

  lemma SelectedIsOfStream(rows: set<SegmentRef>, t: Track, lo: u64, hi: u64, s: SegmentRef)
    requires Selected(rows, t.broadcast, t.name, lo, hi, s)
    ensures s in rows && OfStream(s, t.broadcast, t.name)
  {
  }

  lemma StartsTogether(t: Track, end: World, f: Fragment, s: SegmentRef)
    requires Plays(t, end.files, f, s)
    ensures s.startDts == f.dts
  {
  }

  lemma SameStart(fs: seq<Fragment>, i: nat, j: nat)
    requires DisjointFragments(fs) && i < |fs| && j < |fs| && fs[i].duration > 0 && fs[j].duration > 0
    requires fs[i].dts == fs[j].dts
    ensures i == j
  {
  }

  lemma MetIsAnswered(t: Track, fs: seq<Fragment>, end: World, lo: u64, hi: u64, answer: seq<SegmentRef>,
                      met: seq<nat>, i: nat)
    requires Archivable(t, fs) && DisjointFragments(fs) && Archived(t, fs, end) && lo < hi
    requires Disjoint(end.rows, t.broadcast, t.name) && i < |fs| && Meets(fs[i], lo, hi)
    requires forall s :: Selected(end.rows, t.broadcast, t.name, lo, hi, s) ==> s in answer
    requires |met| == |answer| && forall m :: 0 <= m < |met| ==> PlayedBy(t, fs, end, answer[m], met[m])
    ensures i in met
  {
    var s := MetRowIsSelected(t, fs, end, lo, hi, i);
    hide *;
    var k :| 0 <= k < |answer| && answer[k] == s;
    assert PlayedBy(t, fs, end, answer[k], met[k]);
    OnlyOnePlays(t, fs, end, s, met[k], i);
  }

  lemma MetRowIsSelected(t: Track, fs: seq<Fragment>, end: World, lo: u64, hi: u64, i: nat) returns (s: SegmentRef)
    requires Archivable(t, fs) && Archived(t, fs, end) && lo < hi
    requires Disjoint(end.rows, t.broadcast, t.name) && i < |fs| && Meets(fs[i], lo, hi)
    ensures PlayedBy(t, fs, end, s, i) && Selected(end.rows, t.broadcast, t.name, lo, hi, s)
  {
    assert fs[i].duration > 0 && fs[i].dts < U64_MAX;
    hide Archived, Disjoint, Selected, Plays, Meets, Archivable, ValidUtf8;
    s := FragmentIsPlayed(t, fs, end, i);
    SelectedIffMeets(t, end, lo, hi, fs[i], s);
  }

  lemma OnlyOnePlays(t: Track, fs: seq<Fragment>, end: World, s: SegmentRef, i: nat, j: nat)
    requires DisjointFragments(fs) && PlayedBy(t, fs, end, s, i) && PlayedBy(t, fs, end, s, j)
    ensures i == j
  {
    hide Plays, DisjointFragments, ValidUtf8;
    StartsTogether(t, end, fs[i], s);
    StartsTogether(t, end, fs[j], s);
    SameStart(fs, i, j);
  }

  /** A DVR query against the index such a run has filled. */
  method QueryAfterRun(index: Index.RedbSegmentIndex, t: Track, lo: u64, hi: u64, ghost fs: seq<Fragment>,
                       ghost files: Files, ghost rows: set<SegmentRef>, ghost end: World)
    returns (r: Result<seq<SegmentRef>>)
    requires index.Valid() && index.Contents() == end.rows && lo < hi
    requires Archivable(t, fs) && DisjointFragments(fs) && Completes(t, fs, files, rows, end)
    ensures r.Ok? <==> forall s :: s in end.rows && OfStream(s, t.broadcast, t.name) && s.startDts < hi ==> Decodable(s)
    ensures r.Ok? ==> exists met :: Answers(t, fs, end.files, lo, hi, r.value, met)
  {
    assert DistinctDts(fs);
    CompleteRunArchives(t, fs, files, rows, end);
    r := index.FindRange(t.broadcast, t.name, lo, hi);
    assert NamesFit(t.broadcast, t.name);
    hide *;
    if r.Ok? {
      var met := WindowAnswersFragments(t, fs, end, lo, hi, r.value);
    }
  }
}
