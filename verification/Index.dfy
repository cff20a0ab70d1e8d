/** The redb-backed DVR index (crates/lvqr-archive/src/index.rs). The redb table is a byte-keyed ordered map: a
    sequence of (key, value) entries in strict key order. */
module Index {
  import opened Bytes
  import opened Segment
  import opened Window

  type Entry = (seq<byte>, seq<byte>)

  datatype KeyRange = HalfOpen(lo: seq<byte>, hi: seq<byte>) | Closed(lo: seq<byte>, hi: seq<byte>) | Full

  predicate InRange(k: seq<byte>, range: KeyRange) {
    match range
    case HalfOpen(lo, hi) => !LexLess(k, lo) && LexLess(k, hi)
    case Closed(lo, hi) => !LexLess(k, lo) && !LexLess(hi, k)
    case Full => true
  }

  /** An ordered range scan of the table. */
  function Scan(table: seq<Entry>, range: KeyRange): seq<Entry> {
    if table == [] then []
    else (if InRange(table[0].0, range) then [table[0]] else []) + Scan(table[1..], range)
  }

  function KeyOf(s: SegmentRef): seq<byte> {
    Key(s.broadcast, s.track, s.startDts)
  }

  function Encoded(s: SegmentRef): Entry {
    (KeyOf(s), Value(s))
  }

  ghost predicate KeyOrdered(rows: seq<SegmentRef>) {
    (forall i :: 0 <= i < |rows| ==> Storable(rows[i]))
    && forall i, j :: 0 <= i < j < |rows| ==> LexLess(KeyOf(rows[i]), KeyOf(rows[j]))
  }

  ghost predicate Encodes(table: seq<Entry>, rows: seq<SegmentRef>) {
    |table| == |rows| && forall i :: 0 <= i < |rows| ==> table[i] == Encoded(rows[i])
  }

  ghost predicate Stream(rows: seq<SegmentRef>, broadcast: Str, track: Str) {
    forall i :: 0 <= i < |rows| ==> OfStream(rows[i], broadcast, track)
  }

  // ---------------------------------------------------------------- scans, seen as rows

  ghost function Scanned(rows: seq<SegmentRef>, range: KeyRange): seq<SegmentRef> {
    if rows == [] then []
    else (if InRange(KeyOf(rows[0]), range) then [rows[0]] else []) + Scanned(rows[1..], range)
  }

  lemma {:induction false} ScannedMembers(rows: seq<SegmentRef>, range: KeyRange)
    ensures forall s :: s in Scanned(rows, range) <==> s in rows && InRange(KeyOf(s), range)
  {
    if rows != [] {
      ScannedMembers(rows[1..], range);
      assert rows == [rows[0]] + rows[1..];
    }
  }

  /** A scan of the table is the encoding of the scanned rows. */
  lemma {:induction false} ScanEncodes(table: seq<Entry>, rows: seq<SegmentRef>, range: KeyRange)
    requires Encodes(table, rows)
    ensures Encodes(Scan(table, range), Scanned(rows, range))
  {
    hide Key, Value, LexLess, ValidUtf8, InRange;
    if rows != [] {
      ScanEncodes(table[1..], rows[1..], range);
      assert table[0] == Encoded(rows[0]);
    }
  }

  /** Scanning keeps the key order. */
  lemma {:induction false} ScanKeepsOrder(rows: seq<SegmentRef>, range: KeyRange)
    requires KeyOrdered(rows)
    ensures KeyOrdered(Scanned(rows, range))
  {
    hide Key, Value, LexLess;
    if rows != [] {
      ScanKeepsOrder(rows[1..], range);
      ScannedMembers(rows[1..], range);
      var rest := Scanned(rows[1..], range);
      forall j | 0 <= j < |rest|
        ensures LexLess(KeyOf(rows[0]), KeyOf(rest[j]))
      {
        assert rest[j] in rest;
        var i :| 0 <= i < |rows[1..]| && rows[1..][i] == rest[j];
        assert rows[i + 1] == rest[j];
      }
    }
  }

  /** In key order, the rows of one stream ascend by dts. */
  lemma KeyOrderAscends(rows: seq<SegmentRef>, broadcast: Str, track: Str)
    requires KeyOrdered(rows) && Stream(rows, broadcast, track)
    ensures Ascending(rows)
  {
    forall i, j | 0 <= i < j < |rows|
      ensures rows[i].startDts < rows[j].startDts
    {
      KeyOrderIsDtsOrder(broadcast, track, rows[i].startDts, rows[j].startDts);
    }
  }

  /** A half-open scan between two keys of one stream finds exactly the stream's rows of that dts range. */
  lemma StreamScan(rows: seq<SegmentRef>, broadcast: Str, track: Str, lo: u64, hi: u64)
    requires KeyOrdered(rows) && NamesFit(broadcast, track)
    ensures var found := Scanned(rows, HalfOpen(Key(broadcast, track, lo), Key(broadcast, track, hi)));
            (forall s :: s in found <==> s in rows && OfStream(s, broadcast, track) && lo <= s.startDts < hi)
            && Stream(found, broadcast, track)
  {
    var range := HalfOpen(Key(broadcast, track, lo), Key(broadcast, track, hi));
    ScannedMembers(rows, range);
    forall s | s in rows
      ensures InRange(KeyOf(s), range) <==> OfStream(s, broadcast, track) && lo <= s.startDts < hi
    {
      RangeStaysInStream(broadcast, track, lo, hi, s.broadcast, s.track, s.startDts);
    }
  }

  // ---------------------------------------------------------------- per-stream summaries

  datatype ArchiveSummary = ArchiveSummary(
    broadcast: Str,
    track: Str,
    segmentCount: u64,
    firstStartDts: u64,
    lastEndDts: u64,
    timescale: u32,
    totalBytes: u64)

  /** u64 addition in a release build: it wraps. */
  function WrapAdd(a: int, b: int): u64 {
    (a + b) % 0x1_0000_0000_0000_0000
  }

  function Fresh(s: SegmentRef): ArchiveSummary {
    ArchiveSummary(s.broadcast, s.track, 1, s.startDts, s.endDts, s.timescale, s.length)
  }

  function Bump(a: ArchiveSummary, s: SegmentRef): ArchiveSummary {
    a.(segmentCount := WrapAdd(a.segmentCount, 1),
       firstStartDts := if s.startDts < a.firstStartDts then s.startDts else a.firstStartDts,
       lastEndDts := if s.endDts > a.lastEndDts then s.endDts else a.lastEndDts,
       totalBytes := WrapAdd(a.totalBytes, s.length))
  }

  ghost function StreamRows(rows: seq<SegmentRef>, broadcast: Str, track: Str): seq<SegmentRef> {
    if rows == [] then []
    else StreamRows(rows[..|rows| - 1], broadcast, track)
         + if OfStream(rows[|rows| - 1], broadcast, track) then [rows[|rows| - 1]] else []
  }

  lemma {:induction false} StreamRowsMembers(rows: seq<SegmentRef>, broadcast: Str, track: Str)
    ensures forall s :: s in StreamRows(rows, broadcast, track) <==> s in rows && OfStream(s, broadcast, track)
  {
    if rows != [] {
      StreamRowsMembers(rows[..|rows| - 1], broadcast, track);
      assert rows == rows[..|rows| - 1] + [rows[|rows| - 1]];
    }
  }

  ghost function TotalLength(rows: seq<SegmentRef>): nat {
    if rows == [] then 0 else TotalLength(rows[..|rows| - 1]) + rows[|rows| - 1].length
  }

  ghost function LeastStart(rows: seq<SegmentRef>): int
    requires rows != []
  {
    var last := rows[|rows| - 1].startDts;
    if |rows| == 1 then last else var m := LeastStart(rows[..|rows| - 1]); if last < m then last else m
  }

  ghost function GreatestEnd(rows: seq<SegmentRef>): int
    requires rows != []
  {
    var last := rows[|rows| - 1].endDts;
    if |rows| == 1 then last else var m := GreatestEnd(rows[..|rows| - 1]); if last > m then last else m
  }

  lemma {:induction false} LeastAndGreatest(rows: seq<SegmentRef>)
    requires rows != []
    ensures forall i :: 0 <= i < |rows| ==> LeastStart(rows) <= rows[i].startDts && rows[i].endDts <= GreatestEnd(rows)
    ensures exists i :: 0 <= i < |rows| && rows[i].startDts == LeastStart(rows)
    ensures exists i :: 0 <= i < |rows| && rows[i].endDts == GreatestEnd(rows)
  {
    hide ValidUtf8;
    var n := |rows| - 1;
    if n > 0 {
      LeastAndGreatest(rows[..n]);
      var i :| 0 <= i < n && rows[..n][i].startDts == LeastStart(rows[..n]);
      var j :| 0 <= j < n && rows[..n][j].endDts == GreatestEnd(rows[..n]);
      assert rows[i].startDts == LeastStart(rows[..n]) && rows[j].endDts == GreatestEnd(rows[..n]);
      forall k | 0 <= k < n
        ensures LeastStart(rows[..n]) <= rows[k].startDts && rows[k].endDts <= GreatestEnd(rows[..n])
      {
        assert rows[..n][k] == rows[k];
      }
      assert rows[n].startDts == LeastStart(rows) || rows[i].startDts == LeastStart(rows);
      assert rows[n].endDts == GreatestEnd(rows) || rows[j].endDts == GreatestEnd(rows);
    } else {
      assert rows[0].startDts == LeastStart(rows) && rows[0].endDts == GreatestEnd(rows);
    }
  }

  /** The group-by specification of one summary: count, least start, greatest end and total bytes of the rows of
      the stream, and the timescale of the first one. */
  ghost predicate Summarises(a: ArchiveSummary, rows: seq<SegmentRef>) {
    rows != []
    && a.segmentCount == |rows| % 0x1_0000_0000_0000_0000
    && a.totalBytes == TotalLength(rows) % 0x1_0000_0000_0000_0000
    && a.timescale == rows[0].timescale
    && a.firstStartDts == LeastStart(rows)
    && a.lastEndDts == GreatestEnd(rows)
  }

  predicate SameStream(a: ArchiveSummary, s: SegmentRef) {
    OfStream(s, a.broadcast, a.track)
  }

  lemma FreshSummarises(s: SegmentRef)
    ensures Summarises(Fresh(s), [s])
  {
    assert TotalLength([s]) == TotalLength([s][..0]) + s.length;
  }

  lemma BumpSummarises(a: ArchiveSummary, rows: seq<SegmentRef>, s: SegmentRef)
    requires Summarises(a, rows)
    ensures Summarises(Bump(a, s), rows + [s])
  {
    assert (rows + [s])[..|rows|] == rows;
    ModAdd(|rows|, 1);
    ModAdd(TotalLength(rows), s.length);
  }

  lemma ModAdd(a: nat, b: nat)
    ensures WrapAdd(a % 0x1_0000_0000_0000_0000, b) == (a + b) % 0x1_0000_0000_0000_0000
  {
  }

  /** Strictly ordered by (broadcast, track), so no stream twice. */
  ghost predicate NameOrdered(acc: seq<ArchiveSummary>) {
    forall i, j :: 0 <= i < j < |acc| ==> PairLess(acc[i].broadcast, acc[i].track, acc[j].broadcast, acc[j].track)
  }

  /** `acc` is the group-by of `rows`. */
  ghost predicate GroupBy(acc: seq<ArchiveSummary>, rows: seq<SegmentRef>) {
    NameOrdered(acc)
    && (forall a :: a in acc ==> Summarises(a, StreamRows(rows, a.broadcast, a.track)))
    && (forall s :: s in rows ==> exists a :: a in acc && SameStream(a, s))
  }

  /** One step of the BTreeMap accumulation, `and_modify(..).or_insert(..)`: it extends the group-by by one row. */
  method Accumulate(acc: seq<ArchiveSummary>, s: SegmentRef, ghost rows: seq<SegmentRef>)
    returns (acc': seq<ArchiveSummary>)
    requires GroupBy(acc, rows)
    ensures GroupBy(acc', rows + [s])
  {
    hide LexLess, Summarises;
    var at := 0;
    while at < |acc| && PairLess(acc[at].broadcast, acc[at].track, s.broadcast, s.track)
      invariant at <= |acc|
      invariant forall i :: 0 <= i < at ==> PairLess(acc[i].broadcast, acc[i].track, s.broadcast, s.track)
    {
      at := at + 1;
    }
    PairLessOrder(s.broadcast, s.track, s.broadcast, s.track, s.broadcast, s.track);
    if at < |acc| && SameStream(acc[at], s) {
      acc' := acc[at := Bump(acc[at], s)];
      GroupByBump(acc, rows, s, at);
    } else {
      acc' := acc[..at] + [Fresh(s)] + acc[at..];
      forall j | at <= j < |acc|
        ensures PairLess(s.broadcast, s.track, acc[j].broadcast, acc[j].track)
      {
        PairLessOrder(s.broadcast, s.track, acc[at].broadcast, acc[at].track, acc[j].broadcast, acc[j].track);
      }
      GroupByInsert(acc, rows, s, at);
    }
  }

  /** Appending a row changes only its own stream. */
  lemma StreamRowsSnoc(rows: seq<SegmentRef>, s: SegmentRef, broadcast: Str, track: Str)
    ensures StreamRows(rows + [s], broadcast, track)
         == StreamRows(rows, broadcast, track) + if OfStream(s, broadcast, track) then [s] else []
  {
    assert (rows + [s])[..|rows|] == rows;
  }

  /** The summaries of the other streams do not see the new row. */
  lemma OthersUnchanged(a: ArchiveSummary, rows: seq<SegmentRef>, s: SegmentRef)
    requires !SameStream(a, s)
    ensures StreamRows(rows + [s], a.broadcast, a.track) == StreamRows(rows, a.broadcast, a.track)
  {
    StreamRowsSnoc(rows, s, a.broadcast, a.track);
  }

  lemma GroupByBump(acc: seq<ArchiveSummary>, rows: seq<SegmentRef>, s: SegmentRef, at: nat)
    requires GroupBy(acc, rows) && at < |acc| && SameStream(acc[at], s)
    ensures GroupBy(acc[at := Bump(acc[at], s)], rows + [s])
  {
    hide LexLess, Summarises;
    var acc' := acc[at := Bump(acc[at], s)];
    BumpSummarises(acc[at], StreamRows(rows, s.broadcast, s.track), s);
    StreamRowsSnoc(rows, s, s.broadcast, s.track);
    PairLessOrder(s.broadcast, s.track, s.broadcast, s.track, s.broadcast, s.track);
    forall i | 0 <= i < |acc'| && i != at
      ensures Summarises(acc'[i], StreamRows(rows + [s], acc'[i].broadcast, acc'[i].track))
    {
      assert acc[i] in acc;
      OthersUnchanged(acc[i], rows, s);
    }
    forall r | r in rows + [s]
      ensures exists a :: a in acc' && SameStream(a, r)
    {
      if r == s {
        assert acc'[at] in acc' && SameStream(acc'[at], r);
      } else {
        var a :| a in acc && SameStream(a, r);
        var i :| 0 <= i < |acc| && acc[i] == a;
        assert acc'[i] in acc' && SameStream(acc'[i], r);
      }
    }
  }

  lemma GroupByInsert(acc: seq<ArchiveSummary>, rows: seq<SegmentRef>, s: SegmentRef, at: nat)
    requires GroupBy(acc, rows) && at <= |acc|
    requires forall i :: 0 <= i < at ==> PairLess(acc[i].broadcast, acc[i].track, s.broadcast, s.track)
    requires forall i :: at <= i < |acc| ==> PairLess(s.broadcast, s.track, acc[i].broadcast, acc[i].track)
    ensures GroupBy(acc[..at] + [Fresh(s)] + acc[at..], rows + [s])
  {
    hide LexLess, PairLess, Summarises, NameOrdered;
    var acc' := acc[..at] + [Fresh(s)] + acc[at..];
    NamesStayOrdered(acc, Fresh(s), at);
    InsertedMembers(acc, Fresh(s), at);
    NotAmong(acc, s, at);
    NoSummaryNoRows(acc, rows, s);
    FreshSummarises(s);
    StreamRowsSnoc(rows, s, s.broadcast, s.track);
    assert StreamRows(rows + [s], s.broadcast, s.track) == [s];
    forall a | a in acc'
      ensures Summarises(a, StreamRows(rows + [s], a.broadcast, a.track))
    {
      if a in acc {
        OthersUnchanged(a, rows, s);
      }
    }
    forall r | r in rows + [s]
      ensures exists a :: a in acc' && SameStream(a, r)
    {
      if r == s {
        assert SameStream(Fresh(s), r);
      } else {
        var a :| a in acc && SameStream(a, r);
      }
    }
  }

  lemma InsertedMembers(acc: seq<ArchiveSummary>, x: ArchiveSummary, at: nat)
    requires at <= |acc|
    ensures forall a :: a in acc[..at] + [x] + acc[at..] <==> a in acc || a == x
  {
    assert acc == acc[..at] + acc[at..];
  }

  lemma NotAmong(acc: seq<ArchiveSummary>, s: SegmentRef, at: nat)
    requires at <= |acc|
    requires forall i :: 0 <= i < at ==> PairLess(acc[i].broadcast, acc[i].track, s.broadcast, s.track)
    requires forall i :: at <= i < |acc| ==> PairLess(s.broadcast, s.track, acc[i].broadcast, acc[i].track)
    ensures forall a :: a in acc ==> !SameStream(a, s)
  {
    PairLessOrder(s.broadcast, s.track, s.broadcast, s.track, s.broadcast, s.track);
  }

  lemma NoSummaryNoRows(acc: seq<ArchiveSummary>, rows: seq<SegmentRef>, s: SegmentRef)
    requires forall r :: r in rows ==> exists a :: a in acc && SameStream(a, r)
    requires forall a :: a in acc ==> !SameStream(a, s)
    ensures StreamRows(rows, s.broadcast, s.track) == []
  {
    forall r | r in rows
      ensures !OfStream(r, s.broadcast, s.track)
    {
      var a :| a in acc && SameStream(a, r);
    }
    EmptyStream(rows, s.broadcast, s.track);
  }

  lemma {:induction false} EmptyStream(rows: seq<SegmentRef>, broadcast: Str, track: Str)
    requires forall r :: r in rows ==> !OfStream(r, broadcast, track)
    ensures StreamRows(rows, broadcast, track) == []
  {
    if rows != [] {
      assert rows[|rows| - 1] in rows;
      assert forall r :: r in rows[..|rows| - 1] ==> r in rows;
      EmptyStream(rows[..|rows| - 1], broadcast, track);
    }
  }

  lemma NamesStayOrdered(acc: seq<ArchiveSummary>, x: ArchiveSummary, at: nat)
    requires NameOrdered(acc) && at <= |acc|
    requires forall i :: 0 <= i < at ==> PairLess(acc[i].broadcast, acc[i].track, x.broadcast, x.track)
    requires forall i :: at <= i < |acc| ==> PairLess(x.broadcast, x.track, acc[i].broadcast, acc[i].track)
    ensures NameOrdered(acc[..at] + [x] + acc[at..])
  {
    hide PairLess;
  }

  /** Conservation: the streams of a group-by partition the rows, so the counts add up to the number of rows and
      the bytes to the total length. */
  ghost function GroupedRows(acc: seq<ArchiveSummary>, rows: seq<SegmentRef>): nat {
    if acc == [] then 0 else |StreamRows(rows, acc[0].broadcast, acc[0].track)| + GroupedRows(acc[1..], rows)
  }

  ghost function GroupedBytes(acc: seq<ArchiveSummary>, rows: seq<SegmentRef>): nat {
    if acc == [] then 0
    else TotalLength(StreamRows(rows, acc[0].broadcast, acc[0].track)) + GroupedBytes(acc[1..], rows)
  }

  lemma {:induction false} OneMoreRow(acc: seq<ArchiveSummary>, rows: seq<SegmentRef>, s: SegmentRef)
    requires NameOrdered(acc)
    ensures var hit := exists a :: a in acc && SameStream(a, s);
            GroupedRows(acc, rows + [s]) == GroupedRows(acc, rows) + (if hit then 1 else 0)
            && GroupedBytes(acc, rows + [s]) == GroupedBytes(acc, rows) + (if hit then s.length else 0)
  {
    hide LexLess, PairLess;
    if acc != [] {
      OneMoreRow(acc[1..], rows, s);
      if SameStream(acc[0], s) {
        StreamRowsSnoc(rows, s, s.broadcast, s.track);
        var mine := StreamRows(rows, s.broadcast, s.track);
        assert (mine + [s])[..|mine|] == mine;
        assert acc[0] in acc;
        NotAmong(acc[1..], s, 0);
      } else {
        OthersUnchanged(acc[0], rows, s);
        assert acc == [acc[0]] + acc[1..];
      }
    }
  }

  lemma {:induction false} SummariesConserve(acc: seq<ArchiveSummary>, rows: seq<SegmentRef>)
    requires NameOrdered(acc) && (forall s :: s in rows ==> exists a :: a in acc && SameStream(a, s))
    ensures GroupedRows(acc, rows) == |rows| && GroupedBytes(acc, rows) == TotalLength(rows)
  {
    if rows == [] {
      NothingGrouped(acc);
    } else {
      var front, s := rows[..|rows| - 1], rows[|rows| - 1];
      assert rows == front + [s];
      assert forall r :: r in front ==> r in rows;
      assert s in rows;
      SummariesConserve(acc, front);
      OneMoreRow(acc, front, s);
    }
  }

  lemma {:induction false} NothingGrouped(acc: seq<ArchiveSummary>)
    ensures GroupedRows(acc, []) == 0 && GroupedBytes(acc, []) == 0
  {
    if acc != [] {
      NothingGrouped(acc[1..]);
    }
  }

  // ---------------------------------------------------------------- a summary, seen from its stream

  /** What a summary says of the rows of its stream: how many there are, wrapped at 64 bits; the row that starts first,
      with its timescale; and how far the latest one reaches. */
  ghost predicate Describes(a: ArchiveSummary, stream: set<SegmentRef>) {
    a.segmentCount == |stream| % 0x1_0000_0000_0000_0000
    && (exists s :: s in stream && s.startDts == a.firstStartDts && s.timescale == a.timescale)
    && (exists s :: s in stream && s.endDts == a.lastEndDts)
    && forall s :: s in stream ==> a.firstStartDts <= s.startDts && s.endDts <= a.lastEndDts
  }

  ghost function StreamOf(rows: set<SegmentRef>, a: ArchiveSummary): set<SegmentRef> {
    set s | s in rows && OfStream(s, a.broadcast, a.track)
  }

  lemma {:induction false} StreamRowsKeepOrder(rows: seq<SegmentRef>, broadcast: Str, track: Str)
    requires KeyOrdered(rows)
    ensures KeyOrdered(StreamRows(rows, broadcast, track))
    ensures Stream(StreamRows(rows, broadcast, track), broadcast, track)
  {
    hide Key, Value, LexLess, ValidUtf8;
    if rows != [] {
      var n := |rows| - 1;
      var front := StreamRows(rows[..n], broadcast, track);
      StreamRowsKeepOrder(rows[..n], broadcast, track);
      StreamRowsMembers(rows[..n], broadcast, track);
      forall i | 0 <= i < |front| ensures LexLess(KeyOf(front[i]), KeyOf(rows[n])) {
        assert front[i] in front;
        var k :| 0 <= k < n && rows[..n][k] == front[i];
        assert rows[k] == front[i];
      }
    }
  }

  lemma {:induction false} AscendingCount(rows: seq<SegmentRef>)
    requires Ascending(rows)
    ensures |(set s | s in rows)| == |rows|
  {
    hide ValidUtf8;
    if rows != [] {
      var n := |rows| - 1;
      WithoutLast(rows);
      AscendingCount(rows[..n]);
      assert (set s | s in rows) == (set s | s in rows[..n]) + {rows[n]};
    }
  }

  lemma {:induction false} SummaryDescribes(a: ArchiveSummary, rows: seq<SegmentRef>)
    requires KeyOrdered(rows) && Summarises(a, StreamRows(rows, a.broadcast, a.track))
    ensures Describes(a, StreamOf((set s | s in rows), a))
  {
    var mine := StreamRows(rows, a.broadcast, a.track);
    StreamRowsKeepOrder(rows, a.broadcast, a.track);
    StreamRowsMembers(rows, a.broadcast, a.track);
    KeyOrderAscends(mine, a.broadcast, a.track);
    hide KeyOrdered, StreamRows, ValidUtf8;
    assert StreamOf((set s | s in rows), a) == (set s | s in mine);
    OrderedDescribes(a, mine);
  }

  lemma OrderedDescribes(a: ArchiveSummary, mine: seq<SegmentRef>)
    requires Ascending(mine) && Summarises(a, mine)
    ensures Describes(a, (set s | s in mine))
  {
    AscendingCount(mine);
    LeastAndGreatest(mine);
    assert mine[0] in mine;
    assert LeastStart(mine) == mine[0].startDts by {
      var i :| 0 <= i < |mine| && mine[i].startDts == LeastStart(mine);
    }
    var j :| 0 <= j < |mine| && mine[j].endDts == GreatestEnd(mine);
    assert mine[j] in mine;
    hide LeastStart, GreatestEnd, TotalLength, ValidUtf8;
  }

  lemma SummariesDescribe(acc: seq<ArchiveSummary>, rows: seq<SegmentRef>)
    requires KeyOrdered(rows) && GroupBy(acc, rows)
    ensures forall a :: a in acc ==> Describes(a, StreamOf((set s | s in rows), a))
    ensures forall i, j :: 0 <= i < j < |acc| ==>
              LexLess(acc[i].broadcast, acc[j].broadcast)
              || (acc[i].broadcast == acc[j].broadcast && LexLess(acc[i].track, acc[j].track))
  {
    hide LexLess, KeyOrdered, Summarises, Describes, StreamOf, ValidUtf8;
    forall a | a in acc ensures Describes(a, StreamOf((set s | s in rows), a)) {
      SummaryDescribes(a, rows);
    }
  }

  /** The bytes of a stream are those of its rows, each counted once. */
  lemma {:induction false} TotalLengthAdds(a: seq<SegmentRef>, b: seq<SegmentRef>)
    ensures TotalLength(a + b) == TotalLength(a) + TotalLength(b)
    ensures |a| == 1 ==> TotalLength(a) == a[0].length
    decreases |b|
  {
    hide ValidUtf8;
    if b == [] {
      assert a + b == a;
    } else {
      assert (a + b)[..|a + b| - 1] == a + b[..|b| - 1];
      TotalLengthAdds(a, b[..|b| - 1]);
    }
  }

  // ---------------------------------------------------------------- joining two scans, inserting one row

  ghost predicate StartsBefore(rows: set<SegmentRef>, broadcast: Str, track: Str, lo: u64, s: SegmentRef) {
    s in rows && OfStream(s, broadcast, track) && s.startDts < lo
  }

  /** The last row before the window, if it reaches in, followed by the rows starting in the window, is exactly the
      selection, in order. */
  lemma JoinScans(rows: set<SegmentRef>, broadcast: Str, track: Str, lo: u64, hi: u64,
                  leading: Option<SegmentRef>, rest: seq<SegmentRef>)
    requires lo < hi
    requires leading.None? ==> forall s :: !StartsBefore(rows, broadcast, track, lo, s)
    requires leading.Some? ==> StartsBefore(rows, broadcast, track, lo, leading.value)
    requires leading.Some? ==>
               forall s :: StartsBefore(rows, broadcast, track, lo, s) && s != leading.value ==>
                 s.startDts < leading.value.startDts
    requires Ascending(rest)
    requires forall s :: s in rest <==> s in rows && OfStream(s, broadcast, track) && lo <= s.startDts < hi
    ensures var out := (if leading.Some? && leading.value.endDts > lo then [leading.value] else []) + rest;
            Ascending(out) && forall s :: s in out <==> Selected(rows, broadcast, track, lo, hi, s)
  {
    var out := (if leading.Some? && leading.value.endDts > lo then [leading.value] else []) + rest;
    forall i | 0 <= i < |rest|
      ensures lo <= rest[i].startDts
    {
      assert rest[i] in rest;
    }
    forall s | Selected(rows, broadcast, track, lo, hi, s)
      ensures s in out
    {
      if s.startDts < lo {
        assert StartsBefore(rows, broadcast, track, lo, s);
      } else {
        assert s in rest;
      }
    }
    forall s | s in out
      ensures Selected(rows, broadcast, track, lo, hi, s)
    {
      if s !in rest {
        forall r | r in rows && OfStream(r, broadcast, track) && r.startDts < lo
          ensures r.startDts <= s.startDts
        {
          assert StartsBefore(rows, broadcast, track, lo, r);
        }
      }
    }
  }

  /** Overwriting the row with the same key. */
  lemma ReplaceRow(rows: seq<SegmentRef>, at: nat, s: SegmentRef)
    requires KeyOrdered(rows) && Storable(s) && at < |rows| && KeyOf(rows[at]) == KeyOf(s)
    ensures KeyOrdered(rows[at := s])
    ensures forall r :: r in rows[at := s] <==> r == s || (r in rows && !SameKey(r, s))
  {
    var rows' := rows[at := s];
    KeyInjective(rows[at].broadcast, rows[at].track, rows[at].startDts, s.broadcast, s.track, s.startDts);
    LexTotal(KeyOf(s), KeyOf(s));
    forall i | 0 <= i < |rows| && i != at
      ensures rows'[i] == rows[i] && !SameKey(rows[i], s)
    {
    }
    assert rows'[at] == s;
    forall r | r in rows && !SameKey(r, s)
      ensures r in rows'
    {
      var i :| 0 <= i < |rows| && rows[i] == r;
      assert rows'[i] == r;
    }
  }

  /** Putting a new key in its place. */
  lemma InsertRow(rows: seq<SegmentRef>, at: nat, s: SegmentRef)
    requires KeyOrdered(rows) && Storable(s) && at <= |rows|
    requires forall i :: 0 <= i < at ==> LexLess(KeyOf(rows[i]), KeyOf(s))
    requires at < |rows| ==> !LexLess(KeyOf(rows[at]), KeyOf(s)) && KeyOf(rows[at]) != KeyOf(s)
    ensures KeyOrdered(rows[..at] + [s] + rows[at..])
    ensures forall r :: r in rows[..at] + [s] + rows[at..] <==> r == s || (r in rows && !SameKey(r, s))
  {
    hide Key, Value, LexLess;
    var key := KeyOf(s);
    forall j | at <= j < |rows|
      ensures LexLess(key, KeyOf(rows[j]))
    {
      LexTotal(key, KeyOf(rows[at]));
      if at < j {
        LexTransitive(key, KeyOf(rows[at]), KeyOf(rows[j]));
      }
    }
    LexTotal(key, key);
    forall r | r in rows
      ensures !SameKey(r, s)
    {
      var i :| 0 <= i < |rows| && rows[i] == r;
    }
    assert rows == rows[..at] + rows[at..];
  }

  // ---------------------------------------------------------------- the index

  class RedbSegmentIndex {
    var table: seq<Entry>
    ghost var rows: seq<SegmentRef>

    ghost predicate Valid()
      reads this
    {
      KeyOrdered(rows) && Encodes(table, rows)
    }

    /** The recorded rows, the latest one for each key. */
    ghost function Contents(): set<SegmentRef>
      reads this
    {
      set s | s in rows
    }

    lemma AllStorable()
      requires Valid()
      ensures PositiveExtents(Contents())
    {
    }

    constructor Open()
      ensures Valid() && Contents() == {}
    {
      table := [];
      rows := [];
    }

    /** redb's `insert`: put at its place in key order, over the entry with the same key if there is one. */
    method Insert(key: seq<byte>, value: seq<byte>, ghost s: SegmentRef)
      requires Valid() && Storable(s) && key == KeyOf(s) && value == Value(s)
      modifies this
      ensures Valid()
      ensures Contents() == Recorded(old(Contents()), s)
    {
      hide Key, Value, LexLess, ValidUtf8;
      var at := 0;
      while at < |table| && LexLess(table[at].0, key)
        invariant at <= |table|
        invariant forall i :: 0 <= i < at ==> LexLess(KeyOf(rows[i]), key)
      {
        at := at + 1;
      }
      if at < |table| && table[at].0 == key {
        ReplaceRow(rows, at, s);
        table := table[at := (key, value)];
        rows := rows[at := s];
      } else {
        InsertRow(rows, at, s);
        table := table[..at] + [(key, value)] + table[at..];
        rows := rows[..at] + [s] + rows[at..];
      }
    }

    method Record(s: SegmentRef) returns (r: Result<()>)
      requires Valid()
      modifies this
      ensures Valid()
      ensures r.Ok? <==> Storable(s)
      ensures r.Ok? <==> s.startDts < s.endDts && |s.broadcast| <= 65535 && |s.track| <= 65535
      ensures r.Ok? ==> Contents() == Recorded(old(Contents()), s)
      ensures r.Err? ==> r.error == Corrupt && Contents() == old(Contents())
    {
      if s.endDts <= s.startDts {
        return Err(Corrupt);
      }
      var key := EncodeKey(s.broadcast, s.track, s.startDts);
      if key.Err? {
        return Err(key.error);
      }
      var value := EncodeValue(s);
      Insert(key.value, value, s);
      return Ok(());
    }

    /** Decode one scanned entry back into its row. */
    method DecodeEntry(e: Entry, ghost s: SegmentRef) returns (r: Result<SegmentRef>)
      requires Storable(s) && e == Encoded(s)
      ensures r == if Decodable(s) then Ok(s) else Err(Corrupt)
    {
      var key := DecodeKey(e.0);
      assert e.0 == Key(s.broadcast, s.track, s.startDts);
      r := DecodeValue(key.value.0, key.value.1, key.value.2, e.1);
    }

    /** Decode a whole scan, stopping at the first row that does not decode. */
    method DecodeScan(scan: seq<Entry>, ghost found: seq<SegmentRef>) returns (r: Result<seq<SegmentRef>>)
      requires Encodes(scan, found) && KeyOrdered(found)
      ensures r == if forall i :: 0 <= i < |found| ==> Decodable(found[i]) then Ok(found) else Err(Corrupt)
    {
      var out := [];
      for i := 0 to |scan|
        invariant out == found[..i]
        invariant forall j :: 0 <= j < i ==> Decodable(found[j])
      {
        var seg := DecodeEntry(scan[i], found[i]);
        if seg.Err? {
          return Err(seg.error);
        }
        out := out + [seg.value];
      }
      assert found[..|scan|] == found;
      return Ok(out);
    }

    /** Decode a whole scan and keep the most recent row. */
    method LastOfScan(scan: seq<Entry>, ghost found: seq<SegmentRef>) returns (r: Result<Option<SegmentRef>>)
      requires Encodes(scan, found) && KeyOrdered(found)
      ensures r == if forall i :: 0 <= i < |found| ==> Decodable(found[i])
                   then Ok(if found == [] then None else Some(found[|found| - 1])) else Err(Corrupt)
    {
      var last := None;
      for i := 0 to |scan|
        invariant last == if i == 0 then None else Some(found[i - 1])
        invariant forall j :: 0 <= j < i ==> Decodable(found[j])
      {
        var seg := DecodeEntry(scan[i], found[i]);
        if seg.Err? {
          return Err(seg.error);
        }
        last := Some(seg.value);
      }
      return Ok(last);
    }

    /** The rows a query decodes: those of the stream that start before the window ends. */
    ghost predicate Readable(broadcast: Str, track: Str, hi: u64)
      reads this
    {
      NamesFit(broadcast, track)
      && forall s :: s in Contents() && OfStream(s, broadcast, track) && s.startDts < hi ==> Decodable(s)
    }

    /** Every row of the stream that starts in `[lo, hi)`, in order. */
    method RowsStarting(broadcast: Str, track: Str, lo: u64, hi: u64) returns (r: Result<seq<SegmentRef>>)
      requires Valid() && NamesFit(broadcast, track)
      ensures r.Ok? <==> forall s :: StartsIn(s, broadcast, track, lo, hi) ==> Decodable(s)
      ensures r.Ok? ==> Ascending(r.value) && forall s :: s in r.value <==> StartsIn(s, broadcast, track, lo, hi)
      ensures r.Err? ==> r.error == Corrupt
    {
      var start := EncodeKey(broadcast, track, lo);
      var end := EncodeKey(broadcast, track, hi);
      var range := HalfOpen(start.value, end.value);
      ghost var found := Scanned(rows, range);
      ScanEncodes(table, rows, range);
      ScanKeepsOrder(rows, range);
      StreamScan(rows, broadcast, track, lo, hi);
      KeyOrderAscends(found, broadcast, track);
      r := DecodeScan(Scan(table, range), found);
      assert forall s :: s in found <==> StartsIn(s, broadcast, track, lo, hi);
      assert forall i :: 0 <= i < |found| ==> found[i] in found;
    }

    /** The last row of the stream that starts in `[lo, hi)`. */
    method LastStarting(broadcast: Str, track: Str, lo: u64, hi: u64) returns (r: Result<Option<SegmentRef>>)
      requires Valid() && NamesFit(broadcast, track)
      ensures r.Ok? <==> forall s :: StartsIn(s, broadcast, track, lo, hi) ==> Decodable(s)
      ensures r.Ok? ==> (r.value.None? <==> forall s :: !StartsIn(s, broadcast, track, lo, hi))
      ensures r.Ok? && r.value.Some? ==> StartsIn(r.value.value, broadcast, track, lo, hi)
      ensures r.Ok? && r.value.Some? ==>
                forall s :: StartsIn(s, broadcast, track, lo, hi) && s != r.value.value ==>
                  s.startDts < r.value.value.startDts
      ensures r.Err? ==> r.error == Corrupt
    {
      hide Key, Value, LexLess, ValidUtf8;
      var start := EncodeKey(broadcast, track, lo);
      var end := EncodeKey(broadcast, track, hi);
      var range := HalfOpen(start.value, end.value);
      ghost var found := Scanned(rows, range);
      ScanEncodes(table, rows, range);
      ScanKeepsOrder(rows, range);
      StreamScan(rows, broadcast, track, lo, hi);
      KeyOrderAscends(found, broadcast, track);
      r := LastOfScan(Scan(table, range), found);
      assert forall s :: s in found <==> StartsIn(s, broadcast, track, lo, hi);
      assert forall i :: 0 <= i < |found| ==> found[i] in found;
    }

    ghost predicate StartsIn(s: SegmentRef, broadcast: Str, track: Str, lo: u64, hi: u64)
      reads this
    {
      s in Contents() && OfStream(s, broadcast, track) && lo <= s.startDts < hi
    }

    method FindRange(broadcast: Str, track: Str, queryStart: u64, queryEnd: u64) returns (r: Result<seq<SegmentRef>>)
      requires Valid()
      ensures r.Ok? <==> queryEnd <= queryStart || Readable(broadcast, track, queryEnd)
      ensures queryEnd <= queryStart ==> r == Ok([])
      ensures r.Ok? ==> Ascending(r.value)
      ensures r.Ok? ==> forall s :: s in r.value <==> Selected(Contents(), broadcast, track, queryStart, queryEnd, s)
      ensures r.Err? ==> r.error == Corrupt
    {
      hide Key, Value, LexLess, ValidUtf8;
      if queryEnd <= queryStart {
        return Ok([]);
      }
      var prefixLo := EncodeKey(broadcast, track, 0);
      if prefixLo.Err? {
        return Err(prefixLo.error);
      }
      // Step 1: the greatest row starting before the window, if it reaches into the window.
      var leading := LastStarting(broadcast, track, 0, queryStart);
      if leading.Err? {
        return Err(leading.error);
      }
      var out: seq<SegmentRef> := [];
      if leading.value.Some? && leading.value.value.endDts > queryStart {
        out := [leading.value.value];
      }
      // Step 2: every row starting in the window.
      var rest := RowsStarting(broadcast, track, queryStart, queryEnd);
      if rest.Err? {
        return Err(rest.error);
      }
      forall s | StartsBefore(Contents(), broadcast, track, queryStart, s)
        ensures StartsIn(s, broadcast, track, 0, queryStart)
      {
      }
      forall s | s in Contents() && OfStream(s, broadcast, track) && s.startDts < queryEnd
        ensures Decodable(s)
      {
        assert StartsIn(s, broadcast, track, 0, queryStart) || StartsIn(s, broadcast, track, queryStart, queryEnd);
      }
      JoinScans(Contents(), broadcast, track, queryStart, queryEnd, leading.value, rest.value);
      return Ok(out + rest.value);
    }

    method Latest(broadcast: Str, track: Str) returns (r: Result<Option<SegmentRef>>)
      requires Valid()
      ensures r.Ok? <==> Readable(broadcast, track, U64_MAX)
      ensures r.Ok? && r.value.None? ==> forall s :: s in Contents() ==> !OfStream(s, broadcast, track)
      ensures r.Ok? && r.value.Some? ==> r.value.value in Contents() && OfStream(r.value.value, broadcast, track)
      ensures r.Ok? && r.value.Some? ==>
                forall s :: s in Contents() && OfStream(s, broadcast, track) ==> s.startDts <= r.value.value.startDts
      ensures r.Err? ==> r.error == Corrupt
    {
      hide Key, Value, LexLess, ValidUtf8;
      var lo := EncodeKey(broadcast, track, 0);
      if lo.Err? {
        return Err(lo.error);
      }
      var hi := EncodeKey(broadcast, track, U64_MAX);
      var range := Closed(lo.value, hi.value);
      ghost var found := Scanned(rows, range);
      ScanEncodes(table, rows, range);
      ScanKeepsOrder(rows, range);
      ScannedMembers(rows, range);
      forall s | s in rows
        ensures s in found <==> OfStream(s, broadcast, track)
      {
        StreamRangeIsStream(broadcast, track, s.broadcast, s.track, s.startDts);
      }
      KeyOrderAscends(found, broadcast, track);
      r := LastOfScan(Scan(table, range), found);
      if r.Err? {
        assert exists s :: s in found && !Decodable(s);
      }
    }

    method ListSummaries() returns (r: Result<seq<ArchiveSummary>>)
      requires Valid()
      ensures r.Ok? <==> forall s :: s in Contents() ==> Decodable(s)
      ensures r.Ok? ==> GroupBy(r.value, rows)
      ensures r.Ok? ==>
                forall i, j :: 0 <= i < j < |r.value| ==>
                  LexLess(r.value[i].broadcast, r.value[j].broadcast)
                  || (r.value[i].broadcast == r.value[j].broadcast && LexLess(r.value[i].track, r.value[j].track))
      ensures r.Ok? ==> forall a :: a in r.value ==> Describes(a, StreamOf(Contents(), a))
      ensures r.Err? ==> r.error == Corrupt
    {
      hide Key, Value, LexLess, GroupBy;
      var acc: seq<ArchiveSummary> := [];
      var scan := Scan(table, Full);
      ScanFull(table);
      NothingToGroup();
      for i := 0 to |scan|
        invariant GroupBy(acc, rows[..i])
        invariant forall j :: 0 <= j < i ==> Decodable(rows[j])
      {
        var seg := DecodeEntry(scan[i], rows[i]);
        if seg.Err? {
          assert rows[i] in Contents();
          return Err(seg.error);
        }
        acc := Accumulate(acc, seg.value, rows[..i]);
        assert rows[..i + 1] == rows[..i] + [rows[i]];
      }
      assert rows[..|scan|] == rows;
      SummariesDescribe(acc, rows);
      return Ok(acc);
    }
  }

  // ---------------------------------------------------------------- as a client sees it

  /** Every row a query reads has a path that fits its length field. */
  ghost predicate QueryReads(rows: set<SegmentRef>, broadcast: Str, track: Str, hi: u64) {
    NamesFit(broadcast, track)
    && forall s :: s in rows && OfStream(s, broadcast, track) && s.startDts < hi ==> Decodable(s)
  }

  /** Any sequence of records into a new index, and then a query. It fails exactly when a name or a path it reads is too
      long. Its answer is the documented one exactly when no row is hidden, disjoint extents being enough; and the whole
      stream for the window `[0, u64::MAX)`, whatever the extents. */
  method RecordThenFind(segs: seq<SegmentRef>, broadcast: Str, track: Str, lo: u64, hi: u64)
    returns (r: Result<seq<SegmentRef>>)
    ensures r.Ok? <==> hi <= lo || QueryReads(AllRecorded(segs), broadcast, track, hi)
    ensures hi <= lo ==> r == Ok([])
    ensures r.Ok? && lo < hi ==> Ascending(r.value)
    ensures r.Ok? && lo < hi ==> (AllOverlaps(AllRecorded(segs), broadcast, track, lo, hi, r.value) <==>
              !exists a, b :: Hidden(AllRecorded(segs), broadcast, track, lo, a, b))
    ensures r.Ok? && lo < hi && Disjoint(AllRecorded(segs), broadcast, track) ==>
              AllOverlaps(AllRecorded(segs), broadcast, track, lo, hi, r.value)
    ensures r.Ok? && lo == 0 && hi == U64_MAX ==>
              forall s :: s in r.value <==> s in AllRecorded(segs) && OfStream(s, broadcast, track)
  {
    var index := new RedbSegmentIndex.Open();
    for i := 0 to |segs|
      invariant fresh(index) && index.Valid()
      invariant index.Contents() == AllRecorded(segs[..i])
    {
      assert segs[..i + 1][..i] == segs[..i];
      var _ := index.Record(segs[i]);
    }
    assert segs[..|segs|] == segs;
    index.AllStorable();
    r := index.FindRange(broadcast, track, lo, hi);
    hide Selected, Hidden, Disjoint, AllOverlaps;
    if lo < hi && r.Ok? {
      AnswerIff(AllRecorded(segs), broadcast, track, lo, hi, r.value);
    }
  }

  lemma NothingToGroup()
    ensures GroupBy([], [])
  {
  }

  lemma {:induction false} ScanFull(table: seq<Entry>)
    ensures Scan(table, Full) == table
  {
    if table != [] {
      ScanFull(table[1..]);
    }
  }
}
