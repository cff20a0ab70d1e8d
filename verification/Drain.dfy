/** The archive drain of one published track: detached write-and-record tasks, and the finalize pass that reads their
    work back (crates/lvqr-cli/src/archive.rs `drain`, `finalize_c2pa`). */
module Drain {
  import opened Bytes
  import opened Segment
  import opened Window
  import opened Writer
  import Index

  type Payload = p: seq<byte> | |p| <= U64_MAX
  type Files = map<Str, seq<byte>>

  /** A fragment as the loop sees it: `init` is the init segment the refreshed meta carries by then, if any, and
      `initWritable` says whether writing it to disk would succeed. */
  datatype Fragment = Fragment(dts: u64, duration: u64, keyframe: bool, payload: Payload,
                               init: Option<seq<byte>>, initWritable: bool)

  datatype Track = Track(dir: Str, broadcast: Str, name: Str, timescale: u32)

  /** One detached task: write `payload` to `seg.path`, then record `seg`. */
  datatype Job = Job(payload: Payload, seg: SegmentRef)

  function SaturatingAdd(a: u64, b: u64): u64 {
    if a + b > U64_MAX then U64_MAX else a + b
  }

  function JobOf(t: Track, segmentSeq: u64, f: Fragment): Job {
    Job(f.payload,
        SegmentRef(t.broadcast, t.name, segmentSeq, f.dts, SaturatingAdd(f.dts, f.duration), t.timescale, f.keyframe,
                   SegmentPath(t.dir, t.broadcast, t.name, segmentSeq), 0, |f.payload|))
  }

  /** The fragments that get a task: those of positive duration. */
  ghost function Kept(fs: seq<Fragment>): (kept: seq<Fragment>)
    ensures |kept| <= |fs|
  {
    if fs == [] then []
    else Kept(fs[..|fs| - 1]) + if fs[|fs| - 1].duration > 0 then [fs[|fs| - 1]] else []
  }

  /** The tasks of a run, numbered from one. */
  ghost function Jobs(t: Track, fs: seq<Fragment>): (jobs: seq<Job>)
    requires |fs| <= U64_MAX
    ensures |jobs| == |Kept(fs)|
  {
    seq(|Kept(fs)|, k requires 0 <= k < |Kept(fs)| => JobOf(t, k + 1, Kept(fs)[k]))
  }

  method DrainTrack(t: Track, fs: seq<Fragment>) returns (jobs: seq<Job>, init: Option<seq<byte>>)
    requires |fs| <= U64_MAX
    ensures jobs == Jobs(t, fs) && exists from :: Numbered(t, fs, jobs, from)
    ensures init.None? <==> forall i :: 0 <= i < |fs| ==> fs[i].init.None? || !fs[i].initWritable
    ensures init.Some? ==>
              exists i :: 0 <= i < |fs| && fs[i].initWritable && fs[i].init == init
                && forall j :: 0 <= j < i ==> fs[j].init.None? || !fs[j].initWritable
  {
    hide SegmentPath;
    jobs, init := [], None;
    var segmentSeq: int := 0;
    for i := 0 to |fs|
      invariant segmentSeq == |jobs| <= i && jobs == Jobs(t, fs[..i])
      invariant init.None? <==> forall j :: 0 <= j < i ==> fs[j].init.None? || !fs[j].initWritable
      invariant init.Some? ==>
                  exists j :: 0 <= j < i && fs[j].initWritable && fs[j].init == init
                    && forall k :: 0 <= k < j ==> fs[k].init.None? || !fs[k].initWritable
    {
      var f := fs[i];
      assert fs[..i + 1][..i] == fs[..i];
      if init.None? && f.init.Some? && f.initWritable {
        init := f.init;
      }
      if f.duration == 0 {
        continue;
      }
      segmentSeq := segmentSeq + 1;
      jobs := jobs + [JobOf(t, segmentSeq, f)];
    }
    assert fs[..|fs|] == fs;
    var from := JobsAreNumbered(t, fs);
  }

  // ---------------------------------------------------------------- what the tasks of one run look like

  /** The task writes the fragment's payload to the segment file of that number, and records the fragment's extent, to
      the end of time at the latest, with all that is known of it. */
  ghost predicate Archives(t: Track, f: Fragment, number: u64, job: Job) {
    job.payload == f.payload && OfStream(job.seg, t.broadcast, t.name)
    && job.seg.segmentSeq == number && job.seg.path == SegmentPath(t.dir, t.broadcast, t.name, number)
    && Spans(job.seg, f) && job.seg.timescale == t.timescale && job.seg.keyframeStart == f.keyframe
    && job.seg.byteOffset == 0 && job.seg.length == |f.payload|
  }

  /** The row's extent is the fragment's. */
  ghost predicate Spans(s: SegmentRef, f: Fragment) {
    s.startDts == f.dts
    && (f.dts + f.duration <= U64_MAX ==> s.endDts == f.dts + f.duration)
    && (f.dts + f.duration > U64_MAX ==> s.endDts == U64_MAX)
  }

  /** One task for each fragment of positive duration and for no other, in order, numbered from one; `from` says which
      fragment each is for. */
  ghost predicate Numbered(t: Track, fs: seq<Fragment>, jobs: seq<Job>, from: seq<nat>) {
    |from| == |jobs| <= |fs| <= U64_MAX && (forall k, m :: 0 <= k < m < |from| ==> from[k] < from[m])
    && (forall i: nat :: i in from <==> i < |fs| && fs[i].duration > 0)
    && forall k :: 0 <= k < |jobs| ==> from[k] < |fs| && Archives(t, fs[from[k]], k + 1, jobs[k])
  }

  lemma {:induction false} JobsAreNumbered(t: Track, fs: seq<Fragment>) returns (from: seq<nat>)
    requires |fs| <= U64_MAX
    ensures Numbered(t, fs, Jobs(t, fs), from)
  {
    if fs == [] {
      from := [];
    } else {
      var n := |fs| - 1;
      var rest := JobsAreNumbered(t, fs[..n]);
      from := rest + if fs[n].duration > 0 then [n] else [];
      JobArchives(t, |rest| + 1, fs[n]);
      OneMoreJob(t, fs);
      hide Jobs, Kept, JobOf, Archives, SegmentPath, ValidUtf8;
      OneMoreNumbered(t, fs, Jobs(t, fs[..n]), rest, JobOf(t, |rest| + 1, fs[n]));
    }
  }

  lemma OneMoreJob(t: Track, fs: seq<Fragment>)
    requires fs != [] && |fs| <= U64_MAX
    ensures var n := |fs| - 1;
            Jobs(t, fs) == Jobs(t, fs[..n])
                           + if fs[n].duration > 0 then [JobOf(t, |Jobs(t, fs[..n])| + 1, fs[n])] else []
  {
    hide JobOf, ValidUtf8;
  }

  lemma JobArchives(t: Track, number: u64, f: Fragment)
    ensures Archives(t, f, number, JobOf(t, number, f))
  {
    hide SegmentPath, ValidUtf8;
  }

  lemma OneMoreNumbered(t: Track, fs: seq<Fragment>, jobs: seq<Job>, from: seq<nat>, last: Job)
    requires fs != [] && |fs| <= U64_MAX && Numbered(t, fs[..|fs| - 1], jobs, from)
    requires Archives(t, fs[|fs| - 1], |jobs| + 1, last)
    ensures var kept := fs[|fs| - 1].duration > 0;
            Numbered(t, fs, jobs + (if kept then [last] else []), from + if kept then [|fs| - 1] else [])
  {
    hide Archives, ValidUtf8;
    var n := |fs| - 1;
    assert forall k :: 0 <= k < |from| ==> from[k] in from;
    assert forall k :: 0 <= k < |jobs| ==> fs[..n][from[k]] == fs[from[k]];
  }

  ghost predicate DistinctDts(fs: seq<Fragment>) {
    forall i, j :: 0 <= i < j < |fs| && fs[i].duration > 0 && fs[j].duration > 0 ==> fs[i].dts != fs[j].dts
  }

  lemma {:induction false} KeptMembers(fs: seq<Fragment>)
    ensures forall f :: f in Kept(fs) <==> f in fs && f.duration > 0
  {
    if fs != [] {
      KeptMembers(fs[..|fs| - 1]);
      assert fs == fs[..|fs| - 1] + [fs[|fs| - 1]];
    }
  }

  lemma {:induction false} KeptDistinct(fs: seq<Fragment>)
    requires DistinctDts(fs)
    ensures forall i, j :: 0 <= i < j < |Kept(fs)| ==> Kept(fs)[i].dts != Kept(fs)[j].dts
  {
    if fs != [] {
      var n := |fs| - 1;
      var kept := Kept(fs[..n]);
      KeptDistinct(fs[..n]);
      KeptMembers(fs[..n]);
      forall i | 0 <= i < |kept| && fs[n].duration > 0
        ensures kept[i].dts != fs[n].dts
      {
        assert kept[i] in kept;
        var k :| 0 <= k < n && fs[..n][k] == kept[i];
        assert fs[k] == kept[i];
      }
    }
  }

  ghost predicate DtsAscend(fs: seq<Fragment>) {
    forall i, j :: 0 <= i < j < |fs| ==> fs[i].dts < fs[j].dts
  }

  lemma {:induction false} KeptHolds(fs: seq<Fragment>, i: nat)
    requires i < |fs| && fs[i].duration > 0
    ensures Kept(fs[..i + 1]) == Kept(fs[..i]) + [fs[i]] && Kept(fs[..i + 1]) <= Kept(fs)
    decreases |fs|
  {
    var n := |fs| - 1;
    assert fs[..i + 1][..i] == fs[..i];
    if i < n {
      KeptHolds(fs[..n], i);
      assert fs[..n][..i + 1] == fs[..i + 1] && fs[..n][..i] == fs[..i];
    } else {
      assert fs[..i + 1] == fs;
    }
  }

  lemma KeptInOrderIsDistinct(fs: seq<Fragment>)
    requires DtsAscend(Kept(fs))
    ensures DistinctDts(fs)
  {
    forall i, j | 0 <= i < j < |fs| && fs[i].duration > 0 && fs[j].duration > 0
      ensures fs[i].dts != fs[j].dts
    {
      KeptHolds(fs, i);
      KeptHolds(fs, j);
      KeptHolds(fs[..j], i);
      assert fs[..j][..i + 1] == fs[..i + 1];
      var a, b := |Kept(fs[..i])|, |Kept(fs[..j])|;
      assert Kept(fs)[a] == Kept(fs[..i + 1])[a] == fs[i];
      assert Kept(fs)[b] == Kept(fs[..j + 1])[b] == fs[j];
    }
  }

  /** Tasks that do not step on each other: own path, own key, and a row the index accepts. */
  ghost predicate Independent(jobs: seq<Job>) {
    (forall i :: 0 <= i < |jobs| ==> Storable(jobs[i].seg))
    && (forall i, j :: 0 <= i < |jobs| && 0 <= j < |jobs| && i != j ==>
          jobs[i].seg.path != jobs[j].seg.path && !SameKey(jobs[i].seg, jobs[j].seg))
  }

  /** Names the index accepts, and no task at the very end of time. */
  ghost predicate Archivable(t: Track, fs: seq<Fragment>) {
    |fs| <= U64_MAX && NamesFit(t.broadcast, t.name)
    && forall i :: 0 <= i < |fs| && fs[i].duration > 0 ==> fs[i].dts < U64_MAX
  }

  lemma {:induction false} JobsIndependent(t: Track, fs: seq<Fragment>)
    requires Archivable(t, fs) && DistinctDts(fs)
    ensures Independent(Jobs(t, fs))
    ensures forall i :: 0 <= i < |Jobs(t, fs)| ==> Jobs(t, fs)[i].seg.path != InitPath(t.dir, t.broadcast, t.name)
  {
    hide SegmentPath, InitPath;
    var jobs := Jobs(t, fs);
    KeptDistinct(fs);
    KeptMembers(fs);
    forall i | 0 <= i < |jobs|
      ensures Storable(jobs[i].seg) && jobs[i].seg.path != InitPath(t.dir, t.broadcast, t.name)
    {
      assert Kept(fs)[i] in Kept(fs);
      SegmentIsNotInit(t.dir, t.broadcast, t.name, i + 1);
    }
    forall i, j | 0 <= i < |jobs| && 0 <= j < |jobs| && i != j
      ensures jobs[i].seg.path != jobs[j].seg.path && !SameKey(jobs[i].seg, jobs[j].seg)
    {
      if jobs[i].seg.path == jobs[j].seg.path {
        SegmentPathInjective(t.dir, t.broadcast, t.name, i + 1, j + 1);
        assert false;
      }
    }
  }

  // ---------------------------------------------------------------- every completion order

  datatype World = World(files: Files, rows: set<SegmentRef>, written: set<nat>, recorded: set<nat>)

  datatype Step = Write(job: nat) | Record(job: nat)

  ghost predicate Enabled(jobs: seq<Job>, w: World, step: Step) {
    step.job < |jobs|
    && match step
       case Write(i) => i !in w.written
       case Record(i) => i in w.written && i !in w.recorded
  }

  ghost function Apply(jobs: seq<Job>, w: World, step: Step): World
    requires Enabled(jobs, w, step)
  {
    match step
    case Write(i) => w.(files := w.files[jobs[i].seg.path := jobs[i].payload], written := w.written + {i})
    case Record(i) => w.(rows := Recorded(w.rows, jobs[i].seg), recorded := w.recorded + {i})
  }

  /** `steps` is an interleaving of the tasks, leading from `w` to `end`. */
  ghost predicate Leads(jobs: seq<Job>, w: World, steps: seq<Step>, end: World)
    decreases |steps|
  {
    if steps == [] then w == end
    else Enabled(jobs, w, steps[0]) && Leads(jobs, Apply(jobs, w, steps[0]), steps[1..], end)
  }

  ghost predicate AllDone(jobs: seq<Job>, w: World) {
    forall i :: i in w.recorded <==> 0 <= i < |jobs|
  }

  ghost function Start(files: Files, rows: set<SegmentRef>): World {
    World(files, rows, {}, {})
  }

  /** The disk is what it was, with the files of the tasks that have written. */
  ghost predicate MergedFiles(jobs: seq<Job>, before: Files, written: set<nat>, now: Files)
    requires forall i :: i in written ==> i < |jobs|
  {
    (forall p :: p in now <==> p in before || exists i :: i in written && jobs[i].seg.path == p)
    && (forall i :: i in written ==> now[jobs[i].seg.path] == jobs[i].payload)
    && (forall p :: p in before && (forall i :: i in written ==> jobs[i].seg.path != p) ==> now[p] == before[p])
  }

  /** The index is what it was, with the rows of the tasks that have recorded in place of rows with their keys. */
  ghost predicate MergedRows(jobs: seq<Job>, before: set<SegmentRef>, recorded: set<nat>, now: set<SegmentRef>)
    requires forall i :: i in recorded ==> i < |jobs|
  {
    forall s :: s in now <==> RecordedBy(jobs, recorded, s) || (s in before && !Shadowed(jobs, recorded, s))
  }

  ghost predicate RecordedBy(jobs: seq<Job>, recorded: set<nat>, s: SegmentRef)
    requires forall i :: i in recorded ==> i < |jobs|
  {
    exists i :: i in recorded && jobs[i].seg == s
  }

  ghost predicate Shadowed(jobs: seq<Job>, recorded: set<nat>, s: SegmentRef)
    requires forall i :: i in recorded ==> i < |jobs|
  {
    exists i :: i in recorded && SameKey(s, jobs[i].seg)
  }

  ghost predicate Merged(jobs: seq<Job>, files: Files, rows: set<SegmentRef>, w: World) {
    (forall i :: i in w.written ==> i < |jobs|) && w.recorded <= w.written
    && MergedFiles(jobs, files, w.written, w.files) && MergedRows(jobs, rows, w.recorded, w.rows)
  }

  lemma WriteKeepsFiles(jobs: seq<Job>, before: Files, written: set<nat>, now: Files, k: nat)
    requires Independent(jobs) && k < |jobs| && k !in written
    requires (forall i :: i in written ==> i < |jobs|) && MergedFiles(jobs, before, written, now)
    ensures MergedFiles(jobs, before, written + {k}, now[jobs[k].seg.path := jobs[k].payload])
  {
    hide ValidUtf8, SameKey, Storable;
    var now' := now[jobs[k].seg.path := jobs[k].payload];
    assert k in written + {k};
    forall p
      ensures p in now' <==> p in before || exists i :: i in written + {k} && jobs[i].seg.path == p
    {
      if i :| i in written && jobs[i].seg.path == p {
        assert i in written + {k};
      }
    }
  }

  lemma RecordKeepsRows(jobs: seq<Job>, before: set<SegmentRef>, recorded: set<nat>, now: set<SegmentRef>, k: nat)
    requires Independent(jobs) && k < |jobs| && k !in recorded
    requires (forall i :: i in recorded ==> i < |jobs|) && MergedRows(jobs, before, recorded, now)
    ensures MergedRows(jobs, before, recorded + {k}, Recorded(now, jobs[k].seg))
  {
    var seg := jobs[k].seg;
    assert k in recorded + {k};
    forall s
      ensures RecordedBy(jobs, recorded + {k}, s) <==> RecordedBy(jobs, recorded, s) || s == seg
      ensures Shadowed(jobs, recorded + {k}, s) <==> Shadowed(jobs, recorded, s) || SameKey(s, seg)
      ensures RecordedBy(jobs, recorded, s) ==> !SameKey(s, seg)
    {
      if i :| i in recorded && jobs[i].seg == s {
        assert i in recorded + {k};
      }
      if i :| i in recorded && SameKey(s, jobs[i].seg) {
        assert i in recorded + {k};
      }
    }
  }

  lemma StepKeepsMerged(jobs: seq<Job>, files: Files, rows: set<SegmentRef>, w: World, step: Step)
    requires Independent(jobs) && Merged(jobs, files, rows, w) && Enabled(jobs, w, step)
    ensures Merged(jobs, files, rows, Apply(jobs, w, step))
  {
    hide MergedFiles, MergedRows, Recorded, Independent;
    match step
    case Write(k) => WriteKeepsFiles(jobs, files, w.written, w.files, k);
    case Record(k) => RecordKeepsRows(jobs, rows, w.recorded, w.rows, k);
  }

  lemma {:induction false} RunKeepsMerged(jobs: seq<Job>, files: Files, rows: set<SegmentRef>, w: World,
                                          steps: seq<Step>, end: World)
    requires Independent(jobs) && Merged(jobs, files, rows, w) && Leads(jobs, w, steps, end)
    ensures Merged(jobs, files, rows, end)
    decreases |steps|
  {
    if steps != [] {
      StepKeepsMerged(jobs, files, rows, w, steps[0]);
      RunKeepsMerged(jobs, files, rows, Apply(jobs, w, steps[0]), steps[1..], end);
    }
  }

  /** However the detached tasks interleave, the disk and the index end up the same. */
  lemma {:induction false} OrderDoesNotMatter(jobs: seq<Job>, files: Files, rows: set<SegmentRef>,
                                              one: seq<Step>, other: seq<Step>, a: World, b: World)
    requires Independent(jobs)
    requires Leads(jobs, Start(files, rows), one, a) && AllDone(jobs, a)
    requires Leads(jobs, Start(files, rows), other, b) && AllDone(jobs, b)
    ensures a.files == b.files && a.rows == b.rows
  {
    RunMerges(jobs, files, rows, one, a);
    RunMerges(jobs, files, rows, other, b);
    hide Leads, Independent, Merged;
    SameOutcome(jobs, files, rows, a, b);
  }

  lemma RunMerges(jobs: seq<Job>, files: Files, rows: set<SegmentRef>, steps: seq<Step>, end: World)
    requires Independent(jobs) && Leads(jobs, Start(files, rows), steps, end)
    ensures Merged(jobs, files, rows, end)
  {
    NothingMergedYet(jobs, files, rows);
    hide Leads, Independent, Merged;
    RunKeepsMerged(jobs, files, rows, Start(files, rows), steps, end);
  }

  lemma SameOutcome(jobs: seq<Job>, files: Files, rows: set<SegmentRef>, a: World, b: World)
    requires Merged(jobs, files, rows, a) && AllDone(jobs, a)
    requires Merged(jobs, files, rows, b) && AllDone(jobs, b)
    ensures a.files == b.files && a.rows == b.rows
  {
    assert a.recorded == b.recorded == a.written == b.written;
    assert a.rows == b.rows by {
      hide MergedFiles;
    }
    hide MergedFiles, MergedRows;
    SameFiles(jobs, files, a.written, a.files, b.files);
  }

  lemma NothingMergedYet(jobs: seq<Job>, files: Files, rows: set<SegmentRef>)
    ensures Merged(jobs, files, rows, Start(files, rows))
  {
  }

  lemma SameFiles(jobs: seq<Job>, before: Files, written: set<nat>, a: Files, b: Files)
    requires forall i :: i in written ==> i < |jobs|
    requires MergedFiles(jobs, before, written, a) && MergedFiles(jobs, before, written, b)
    ensures a == b
  {
    forall p | p in a
      ensures p in b && a[p] == b[p]
    {
      if i :| i in written && jobs[i].seg.path == p {
        assert a[p] == jobs[i].payload;
      }
    }
    assert a.Keys == b.Keys;
  }

  /** Without distinct keys the completion order decides which of two rows survives. */
  lemma EqualDtsRaces(jobs: seq<Job>, w: World, i: nat, j: nat)
    requires i < |jobs| && j < |jobs| && jobs[i].seg != jobs[j].seg && SameKey(jobs[i].seg, jobs[j].seg)
    requires i in w.written && j in w.written && i !in w.recorded && j !in w.recorded
    ensures exists a, b :: Leads(jobs, w, [Record(i), Record(j)], a) && Leads(jobs, w, [Record(j), Record(i)], b)
              && a.recorded == b.recorded && jobs[i].seg !in a.rows && jobs[i].seg in b.rows
  {
    var a := Apply(jobs, Apply(jobs, w, Record(i)), Record(j));
    var b := Apply(jobs, Apply(jobs, w, Record(j)), Record(i));
    TwoSteps(jobs, w, Record(i), Record(j));
    TwoSteps(jobs, w, Record(j), Record(i));
    assert a.recorded == b.recorded;
  }

  lemma TwoSteps(jobs: seq<Job>, w: World, one: Step, two: Step)
    requires Enabled(jobs, w, one) && Enabled(jobs, Apply(jobs, w, one), two)
    ensures Leads(jobs, w, [one, two], Apply(jobs, Apply(jobs, w, one), two))
  {
    assert [one, two][1..] == [two] && [two][1..] == [];
    assert Leads(jobs, Apply(jobs, w, one), [two], Apply(jobs, Apply(jobs, w, one), two));
  }

  /** From a disk and an index without rows of this track, the tasks of the run reach `w` in some order. */
  ghost predicate Reaches(t: Track, fs: seq<Fragment>, files: Files, rows: set<SegmentRef>, w: World)
    requires |fs| <= U64_MAX
  {
    (forall s :: s in rows ==> !OfStream(s, t.broadcast, t.name))
    && exists steps :: Leads(Jobs(t, fs), Start(files, rows), steps, w)
  }

  /** The same, and all of them are done. */
  ghost predicate Completes(t: Track, fs: seq<Fragment>, files: Files, rows: set<SegmentRef>, end: World)
    requires |fs| <= U64_MAX
  {
    Reaches(t, fs, files, rows, end) && AllDone(Jobs(t, fs), end)
  }

  /** After a complete run on a fresh track the index lists exactly one row per task, and each row's file holds that
      task's payload; the init segment is untouched. */
  lemma {:induction false} RunArchivesEveryJob(t: Track, fs: seq<Fragment>, files: Files, rows: set<SegmentRef>,
                                               end: World)
    requires Archivable(t, fs) && DistinctDts(fs) && Completes(t, fs, files, rows, end)
    ensures forall s :: s in end.rows && OfStream(s, t.broadcast, t.name)
                   <==> exists k :: 0 <= k < |Jobs(t, fs)| && Jobs(t, fs)[k].seg == s
    ensures forall k :: 0 <= k < |Jobs(t, fs)| ==>
              Jobs(t, fs)[k].seg.path in end.files && end.files[Jobs(t, fs)[k].seg.path] == Jobs(t, fs)[k].payload
    ensures var init := InitPath(t.dir, t.broadcast, t.name);
            (init in end.files <==> init in files) && (init in files ==> end.files[init] == files[init])
  {
    var jobs := Jobs(t, fs);
    JobsIndependent(t, fs);
    JobsOfTrack(t, fs);
    ReachedIsMerged(t, fs, files, rows, end);
    hide Leads, Independent, MergedFiles, MergedRows, Jobs, InitPath, Archivable, DistinctDts;
    RowsAfterRun(t, jobs, rows, end);
    FilesAfterRun(jobs, files, end, InitPath(t.dir, t.broadcast, t.name));
  }

  lemma JobsOfTrack(t: Track, fs: seq<Fragment>)
    requires |fs| <= U64_MAX
    ensures forall k :: 0 <= k < |Jobs(t, fs)| ==> OfStream(Jobs(t, fs)[k].seg, t.broadcast, t.name)
  {
    hide SegmentPath;
  }

  lemma ReachedIsMerged(t: Track, fs: seq<Fragment>, files: Files, rows: set<SegmentRef>, w: World)
    requires |fs| <= U64_MAX && Independent(Jobs(t, fs)) && Reaches(t, fs, files, rows, w)
    ensures Merged(Jobs(t, fs), files, rows, w)
  {
    hide Leads, Independent, Merged, Jobs;
    var steps :| Leads(Jobs(t, fs), Start(files, rows), steps, w);
    RunMerges(Jobs(t, fs), files, rows, steps, w);
  }

  lemma RowsAfterRun(t: Track, jobs: seq<Job>, rows: set<SegmentRef>, end: World)
    requires AllDone(jobs, end) && MergedRows(jobs, rows, end.recorded, end.rows)
    requires forall k :: 0 <= k < |jobs| ==> OfStream(jobs[k].seg, t.broadcast, t.name)
    requires forall s :: s in rows ==> !OfStream(s, t.broadcast, t.name)
    ensures forall s :: s in end.rows && OfStream(s, t.broadcast, t.name)
                        <==> exists k :: 0 <= k < |jobs| && jobs[k].seg == s
  {
    hide OfStream;
    forall s
      ensures s in end.rows && OfStream(s, t.broadcast, t.name) <==> exists k :: 0 <= k < |jobs| && jobs[k].seg == s
    {
      if k :| 0 <= k < |jobs| && jobs[k].seg == s {
        assert RecordedBy(jobs, end.recorded, s);
      }
    }
  }

  lemma FilesAfterRun(jobs: seq<Job>, files: Files, end: World, init: Str)
    requires AllDone(jobs, end) && end.recorded <= end.written && forall i :: i in end.written ==> i < |jobs|
    requires MergedFiles(jobs, files, end.written, end.files)
    requires forall k :: 0 <= k < |jobs| ==> jobs[k].seg.path != init
    ensures forall k :: 0 <= k < |jobs| ==>
              jobs[k].seg.path in end.files && end.files[jobs[k].seg.path] == jobs[k].payload
    ensures (init in end.files <==> init in files) && (init in files ==> end.files[init] == files[init])
  {
    forall k | 0 <= k < |jobs| ensures k in end.written {
      assert k in end.recorded;
    }
  }

  // ---------------------------------------------------------------- finalize

  ghost function Payloads(jobs: seq<Job>): seq<byte> {
    if jobs == [] then [] else Payloads(jobs[..|jobs| - 1]) + jobs[|jobs| - 1].payload
  }

  ghost function FileBytes(files: Files, rows: seq<SegmentRef>): seq<byte>
    requires forall i :: 0 <= i < |rows| ==> rows[i].path in files
  {
    if rows == [] then [] else FileBytes(files, rows[..|rows| - 1]) + files[rows[|rows| - 1].path]
  }

  /** The files are read one after another: each contributes its bytes once, behind those of the rows before it. */
  lemma {:induction false} FileBytesConcat(files: Files, a: seq<SegmentRef>, b: seq<SegmentRef>)
    requires forall i :: 0 <= i < |a| ==> a[i].path in files
    requires forall i :: 0 <= i < |b| ==> b[i].path in files
    ensures FileBytes(files, a + b) == FileBytes(files, a) + FileBytes(files, b)
    ensures |a| == 1 ==> FileBytes(files, a) == files[a[0].path]
    decreases |b|
  {
    hide ValidUtf8;
    if b == [] {
      assert a + b == a;
    } else {
      var front := b[..|b| - 1];
      assert (a + b)[..|a| + |front|] == a + front;
      FileBytesConcat(files, a, front);
    }
  }

  /** `concat_assets`: read the segment files in the given order. */
  method ConcatAssets(files: Files, rows: seq<SegmentRef>) returns (r: Result<seq<byte>>)
    ensures r.Ok? <==> forall i :: 0 <= i < |rows| ==> rows[i].path in files
    ensures r.Ok? ==> r.value == FileBytes(files, rows)
  {
    var out: seq<byte> := [];
    for i := 0 to |rows|
      invariant forall j :: 0 <= j < i ==> rows[j].path in files
      invariant out == FileBytes(files, rows[..i])
    {
      if rows[i].path !in files {
        return Err(Io);
      }
      assert rows[..i + 1][..i] == rows[..i];
      out := out + files[rows[i].path];
    }
    assert rows[..|rows|] == rows;
    return Ok(out);
  }

  /** The bytes handed to the signer: the init segment, then the segment files of the stream in dts order. */
  method Finalize(index: Index.RedbSegmentIndex, files: Files, t: Track) returns (r: Result<seq<byte>>)
    requires index.Valid()
    ensures r.Ok? ==> InitPath(t.dir, t.broadcast, t.name) in files
    ensures r.Ok? ==>
              exists rows :: rows != [] && Listing(index.Contents(), t, files, rows)
                && r.value == files[InitPath(t.dir, t.broadcast, t.name)] + FileBytes(files, rows)
    ensures (index.Readable(t.broadcast, t.name, U64_MAX) && InitPath(t.dir, t.broadcast, t.name) in files
             && (exists s :: s in index.Contents() && OfStream(s, t.broadcast, t.name))
             && (forall s :: s in index.Contents() && OfStream(s, t.broadcast, t.name) ==> s.path in files)) ==> r.Ok?
  {
    hide InitPath;
    var initPath := InitPath(t.dir, t.broadcast, t.name);
    if initPath !in files {
      return Err(Io);
    }
    var rows := index.FindRange(t.broadcast, t.name, 0, U64_MAX);
    if rows.Err? {
      return Err(rows.error);
    }
    index.AllStorable();
    forall s
      ensures s in rows.value <==> s in index.Contents() && OfStream(s, t.broadcast, t.name)
    {
      WholeStreamSelected(index.Contents(), t.broadcast, t.name, s);
    }
    assert forall i :: 0 <= i < |rows.value| ==> rows.value[i] in rows.value;
    if rows.value == [] {
      return Err(Io);
    }
    var segments := ConcatAssets(files, rows.value);
    if segments.Err? {
      return Err(segments.error);
    }
    assert Listing(index.Contents(), t, files, rows.value);
    return Ok(files[initPath] + segments.value);
  }

  /** `rows` lists the stream in dts order, and every listed file exists. */
  ghost predicate Listing(contents: set<SegmentRef>, t: Track, files: Files, rows: seq<SegmentRef>) {
    Ascending(rows) && (forall s :: s in rows <==> s in contents && OfStream(s, t.broadcast, t.name))
    && forall i :: 0 <= i < |rows| ==> rows[i].path in files
  }

  /** The tasks that have recorded, sorted by dts. */
  ghost predicate SortedRecorded(jobs: seq<Job>, recorded: set<nat>, sorted: seq<Job>)
    requires forall i :: i in recorded ==> i < |jobs|
  {
    (forall i, j :: 0 <= i < j < |sorted| ==> sorted[i].seg.startDts < sorted[j].seg.startDts)
    && forall j :: j in sorted <==> exists i :: i in recorded && jobs[i] == j
  }

  ghost function JobFor(jobs: seq<Job>, recorded: set<nat>, s: SegmentRef): (j: Job)
    requires (forall i :: i in recorded ==> i < |jobs|) && RecordedBy(jobs, recorded, s)
    ensures j.seg == s && exists i :: i in recorded && jobs[i] == j
  {
    var i :| i in recorded && jobs[i].seg == s;
    jobs[i]
  }

  /** What is listed at `w` is exactly the rows of the recorded tasks, and their files hold their payloads. */
  lemma ListedIsRecorded(t: Track, jobs: seq<Job>, files: Files, rows: set<SegmentRef>, w: World)
    requires Merged(jobs, files, rows, w)
    requires forall k :: 0 <= k < |jobs| ==> OfStream(jobs[k].seg, t.broadcast, t.name)
    requires forall r :: r in rows ==> !OfStream(r, t.broadcast, t.name)
    ensures forall s :: s in w.rows && OfStream(s, t.broadcast, t.name) <==> RecordedBy(jobs, w.recorded, s)
    ensures forall i :: i in w.recorded ==>
              jobs[i].seg.path in w.files && w.files[jobs[i].seg.path] == jobs[i].payload
  {
    hide OfStream;
  }

  /** The rows of the recorded tasks, in dts order. */
  ghost predicate ListsRecorded(jobs: seq<Job>, recorded: set<nat>, listed: seq<SegmentRef>)
    requires forall i :: i in recorded ==> i < |jobs|
  {
    Ascending(listed) && forall s :: s in listed <==> RecordedBy(jobs, recorded, s)
  }

  lemma SortListed(jobs: seq<Job>, recorded: set<nat>, listed: seq<SegmentRef>) returns (sorted: seq<Job>)
    requires Independent(jobs) && (forall i :: i in recorded ==> i < |jobs|) && ListsRecorded(jobs, recorded, listed)
    ensures SortedRecorded(jobs, recorded, sorted)
    ensures |sorted| == |listed| && forall k :: 0 <= k < |listed| ==> sorted[k].seg == listed[k]
  {
    forall k | 0 <= k < |listed| ensures RecordedBy(jobs, recorded, listed[k]) {
      assert listed[k] in listed;
    }
    sorted := seq(|listed|, k requires 0 <= k < |listed| => JobFor(jobs, recorded, listed[k]));
    forall i | i in recorded ensures jobs[i] in sorted {
      assert RecordedBy(jobs, recorded, jobs[i].seg) && jobs[i].seg in listed;
      var k :| 0 <= k < |listed| && listed[k] == jobs[i].seg;
      OneJobPerRow(jobs, sorted[k], jobs[i]);
    }
    hide Independent, RecordedBy;
  }

  lemma OneJobPerRow(jobs: seq<Job>, a: Job, b: Job)
    requires Independent(jobs) && a in jobs && b in jobs && a.seg == b.seg
    ensures a == b
  {
  }

  /** Finalize does not wait for the detached tasks. Whenever it runs, what it reads behind the init segment is the
      payloads of the tasks that have recorded by then, in dts order, whatever order they were drained or completed in;
      and that is the whole recording exactly when all of them have. */
  lemma {:induction false} FinalizeReadsRecorded(t: Track, fs: seq<Fragment>, files: Files, rows: set<SegmentRef>,
                                                 w: World, listed: seq<SegmentRef>)
    returns (sorted: seq<Job>)
    requires Archivable(t, fs) && DistinctDts(fs) && Reaches(t, fs, files, rows, w)
    requires Listing(w.rows, t, w.files, listed)
    ensures forall i :: i in w.recorded ==> i < |Jobs(t, fs)|
    ensures SortedRecorded(Jobs(t, fs), w.recorded, sorted) && FileBytes(w.files, listed) == Payloads(sorted)
    ensures (forall j :: j in Jobs(t, fs) ==> j in sorted) <==> AllDone(Jobs(t, fs), w)
  {
    var jobs := Jobs(t, fs);
    JobsIndependent(t, fs);
    JobsOfTrack(t, fs);
    ReachedIsMerged(t, fs, files, rows, w);
    assert forall r :: r in rows ==> !OfStream(r, t.broadcast, t.name);
    hide Jobs, Reaches, Archivable, DistinctDts, MergedFiles, MergedRows, OfStream;
    ListedIsRecorded(t, jobs, files, rows, w);
    sorted := SortListed(jobs, w.recorded, listed);
    assert forall k :: 0 <= k < |sorted| ==> sorted[k] in sorted;
    SameBytes(w.files, sorted, listed);
    WholeIffDone(jobs, w, sorted);
  }

  lemma WholeIffDone(jobs: seq<Job>, w: World, sorted: seq<Job>)
    requires Independent(jobs) && forall i :: i in w.recorded ==> i < |jobs|
    requires SortedRecorded(jobs, w.recorded, sorted)
    ensures (forall j :: j in jobs ==> j in sorted) <==> AllDone(jobs, w)
  {
    if forall j :: j in jobs ==> j in sorted {
      forall k | 0 <= k < |jobs| ensures k in w.recorded {
        assert jobs[k] in jobs;
        var i :| i in w.recorded && jobs[i] == jobs[k];
      }
    }
  }

  /** After all tasks are done, finalize reads every payload once, in dts order. */
  lemma {:induction false} FinalizeReadsBack(t: Track, fs: seq<Fragment>, files: Files, rows: set<SegmentRef>,
                                             end: World, listed: seq<SegmentRef>)
    returns (sorted: seq<Job>)
    requires Archivable(t, fs) && DistinctDts(fs) && Completes(t, fs, files, rows, end)
    requires Listing(end.rows, t, end.files, listed)
    ensures forall i, j :: 0 <= i < j < |sorted| ==> sorted[i].seg.startDts < sorted[j].seg.startDts
    ensures multiset(sorted) == multiset(Jobs(t, fs))
    ensures FileBytes(end.files, listed) == Payloads(sorted)
  {
    sorted := FinalizeReadsRecorded(t, fs, files, rows, end, listed);
    var jobs := Jobs(t, fs);
    JobsIndependent(t, fs);
    hide Jobs, Reaches, Archivable, DistinctDts, Listing;
    forall j ensures j in sorted <==> j in jobs {
      if j in sorted {
        var i :| i in end.recorded && jobs[i] == j;
      }
    }
    SameMembers(sorted, jobs);
  }

  lemma {:induction false} NoRepeats(a: seq<Job>, j: Job)
    requires forall i, k :: 0 <= i < k < |a| ==> a[i] != a[k]
    ensures multiset(a)[j] == if j in a then 1 else 0
  {
    if a != [] {
      var n := |a| - 1;
      assert a == a[..n] + [a[n]];
      NoRepeats(a[..n], j);
    }
  }

  lemma SameMembers(a: seq<Job>, b: seq<Job>)
    requires forall i, k :: 0 <= i < k < |a| ==> a[i] != a[k]
    requires forall i, k :: 0 <= i < k < |b| ==> b[i] != b[k]
    requires forall j :: j in a <==> j in b
    ensures multiset(a) == multiset(b)
  {
    forall j ensures multiset(a)[j] == multiset(b)[j] {
      NoRepeats(a, j);
      NoRepeats(b, j);
    }
  }

  /** With the kept fragments in dts order already, that is the order they were drained in. */
  lemma {:induction false} InOrderDrainReadsBack(t: Track, fs: seq<Fragment>, files: Files, rows: set<SegmentRef>,
                                                 end: World, listed: seq<SegmentRef>)
    requires Archivable(t, fs) && DtsAscend(Kept(fs)) && Completes(t, fs, files, rows, end)
    requires Listing(end.rows, t, end.files, listed)
    ensures FileBytes(end.files, listed) == Payloads(Jobs(t, fs))
  {
    KeptInOrderIsDistinct(fs);
    JobsIndependent(t, fs);
    JobsAscend(t, fs);
    hide Jobs, Kept, Completes, Archivable, Listing, Independent, DtsAscend, DistinctDts;
    var sorted := FinalizeReadsBack(t, fs, files, rows, end, listed);
    assert forall j :: j in sorted <==> j in multiset(sorted);
    assert forall j :: j in Jobs(t, fs) <==> j in multiset(Jobs(t, fs));
    OneOrder(Jobs(t, fs), sorted);
  }

  lemma JobsAscend(t: Track, fs: seq<Fragment>)
    requires |fs| <= U64_MAX && DtsAscend(Kept(fs))
    ensures forall i, j :: 0 <= i < j < |Jobs(t, fs)| ==> Jobs(t, fs)[i].seg.startDts < Jobs(t, fs)[j].seg.startDts
  {
    hide SegmentPath;
  }

  lemma OneOrder(a: seq<Job>, b: seq<Job>)
    requires Independent(a) && forall j :: j in a <==> j in b
    requires forall i, j :: 0 <= i < j < |a| ==> a[i].seg.startDts < a[j].seg.startDts
    requires forall i, j :: 0 <= i < j < |b| ==> b[i].seg.startDts < b[j].seg.startDts
    ensures a == b
  {
    var sa := seq(|a|, k requires 0 <= k < |a| => a[k].seg);
    var sb := seq(|b|, k requires 0 <= k < |b| => b[k].seg);
    forall s ensures s in sa <==> s in sb {
      if s in sa {
        var k :| 0 <= k < |sa| && sa[k] == s;
        assert a[k] in b;
        var m :| 0 <= m < |b| && b[m] == a[k];
        assert sb[m] == s;
      }
      if s in sb {
        var k :| 0 <= k < |sb| && sb[k] == s;
        assert b[k] in a;
        var m :| 0 <= m < |a| && a[m] == b[k];
        assert sa[m] == s;
      }
    }
    AscendingUnique(sa, sb);
    forall k | 0 <= k < |a| ensures a[k] == b[k] {
      assert sa[k] == sb[k] && b[k] in b;
      OneJobPerRow(a, a[k], b[k]);
    }
  }

  lemma {:induction false} SameBytes(files: Files, jobs: seq<Job>, rows: seq<SegmentRef>)
    requires |jobs| == |rows|
    requires forall i :: 0 <= i < |rows| ==>
               rows[i] == jobs[i].seg && rows[i].path in files && files[rows[i].path] == jobs[i].payload
    ensures FileBytes(files, rows) == Payloads(jobs)
  {
    if rows != [] {
      SameBytes(files, jobs[..|jobs| - 1], rows[..|rows| - 1]);
    }
  }
}
