/** Latency percentiles over a ring of recent samples, per broadcast and transport (crates/lvqr-admin/src/slo.rs). */
module Slo {
  import opened Bytes

  const MAX_SAMPLES: nat := 1024

  // ---------------------------------------------------------------- order statistics

  /** How many samples are smaller than `v`. */
  function CountBelow(s: seq<u64>, v: int): nat {
    if s == [] then 0 else CountBelow(s[..|s| - 1], v) + if s[|s| - 1] < v then 1 else 0
  }

  /** It is the number of places that hold a smaller sample. */
  lemma {:induction false} CountIsCardinality(s: seq<u64>, v: int)
    ensures CountBelow(s, v) == |(set i | 0 <= i < |s| && s[i] < v)|
  {
    if s != [] {
      var n := |s| - 1;
      CountIsCardinality(s[..n], v);
      var front := set i | 0 <= i < n && s[..n][i] < v;
      assert (set i | 0 <= i < |s| && s[i] < v) == front + if s[n] < v then {n} else {};
    }
  }

  /** The k-th percentile: at most `k` percent of the samples are below it, and more than that are not above it. */
  ghost predicate IsPercentile(s: seq<u64>, k: nat, v: u64) {
    v in s && CountBelow(s, v) <= |s| * k / 100 < CountBelow(s, v + 1)
  }

  ghost predicate IsMaximum(s: seq<u64>, v: u64) { v in s && forall x :: x in s ==> x <= v }

  predicate Ascending(s: seq<u64>) { forall i, j :: 0 <= i < j < |s| ==> s[i] <= s[j] }

  lemma {:induction false} CountConcat(a: seq<u64>, b: seq<u64>, v: int)
    ensures CountBelow(a + b, v) == CountBelow(a, v) + CountBelow(b, v)
  {
    if b == [] {
      assert a + b == a;
    } else {
      assert (a + b)[..|a + b| - 1] == a + b[..|b| - 1];
      CountConcat(a, b[..|b| - 1], v);
    }
  }

  lemma {:induction false} CountBounds(s: seq<u64>, v: int, k: nat)
    requires k <= |s|
    ensures (forall j :: k <= j < |s| ==> s[j] >= v) ==> CountBelow(s, v) <= k
    ensures (forall j :: 0 <= j < k ==> s[j] < v) ==> CountBelow(s, v) >= k
  {
    if s != [] {
      CountBounds(s[..|s| - 1], v, if k == |s| then k - 1 else k);
    }
  }

  lemma {:induction false} CountMonotone(s: seq<u64>, v: int, w: int)
    requires v <= w
    ensures CountBelow(s, v) <= CountBelow(s, w)
  {
    if s != [] {
      CountMonotone(s[..|s| - 1], v, w);
    }
  }

  lemma RanksOrdered(n: nat, k: nat, k': nat)
    requires k <= k'
    ensures n * k / 100 <= n * k' / 100
  {
    assert n * k <= n * k';
  }

  /** There is at most one k-th percentile, and a higher percentile is not smaller. */
  lemma {:induction false} PercentilesOrdered(s: seq<u64>, k: nat, v: u64, k': nat, v': u64)
    requires IsPercentile(s, k, v) && IsPercentile(s, k', v') && k <= k'
    ensures v <= v'
    ensures k == k' ==> v == v'
  {
    RanksOrdered(|s|, k, k');
    if v' < v {
      CountMonotone(s, v' + 1, v);
    }
    if k == k' && v < v' {
      CountMonotone(s, v + 1, v');
    }
  }

  lemma {:induction false} SameCounts(s: seq<u64>, t: seq<u64>, v: int)
    requires multiset(s) == multiset(t)
    ensures CountBelow(s, v) == CountBelow(t, v)
    decreases |s|
  {
    if s == [] {
      assert |multiset(t)| == |t|;
    } else {
      var x := s[|s| - 1];
      assert s == s[..|s| - 1] + [x];
      assert x in multiset(t);
      var i :| 0 <= i < |t| && t[i] == x;
      var rest := t[..i] + t[i + 1..];
      assert t == t[..i] + [x] + t[i + 1..];
      assert multiset(rest) == multiset(t) - multiset{x} == multiset(s[..|s| - 1]);
      SameCounts(s[..|s| - 1], rest, v);
      CountConcat(t[..i], t[i + 1..], v);
      CountConcat(t[..i] + [x], t[i + 1..], v);
      CountConcat(t[..i], [x], v);
    }
  }

  /** Percentiles depend on which samples there are, not on their order. */
  lemma {:induction false} PercentileOfMultiset(s: seq<u64>, t: seq<u64>, k: nat, v: u64)
    requires multiset(s) == multiset(t)
    ensures IsPercentile(s, k, v) <==> IsPercentile(t, k, v)
    ensures IsMaximum(s, v) <==> IsMaximum(t, v)
  {
    SameCounts(s, t, v);
    SameCounts(s, t, v + 1);
    assert |s| == |multiset(s)| == |t|;
    assert forall x :: x in s <==> x in multiset(s);
    assert forall x :: x in t <==> x in multiset(t);
  }

  // ---------------------------------------------------------------- sorting a copy

  function Insert(x: u64, s: seq<u64>): seq<u64> {
    if s == [] || x <= s[0] then [x] + s else [s[0]] + Insert(x, s[1..])
  }

  /** What `sort_unstable` leaves. */
  function Sort(s: seq<u64>): seq<u64> {
    if s == [] then [] else Insert(s[0], Sort(s[1..]))
  }

  lemma ConsAscends(x: u64, s: seq<u64>)
    requires Ascending(s) && (s == [] || x <= s[0])
    ensures Ascending([x] + s)
  {
  }

  lemma {:induction false} InsertSorts(x: u64, s: seq<u64>)
    requires Ascending(s)
    ensures Ascending(Insert(x, s)) && multiset(Insert(x, s)) == multiset(s) + multiset{x}
    ensures Insert(x, s) != [] && Insert(x, s)[0] == if s == [] || x <= s[0] then x else s[0]
  {
    if s == [] || x <= s[0] {
      ConsAscends(x, s);
    } else {
      InsertSorts(x, s[1..]);
      assert s == [s[0]] + s[1..];
      ConsAscends(s[0], Insert(x, s[1..]));
      hide Ascending;
    }
  }

  lemma {:induction false} SortSorts(s: seq<u64>)
    ensures Ascending(Sort(s)) && multiset(Sort(s)) == multiset(s)
  {
    if s != [] {
      SortSorts(s[1..]);
      InsertSorts(s[0], Sort(s[1..]));
      assert s == [s[0]] + s[1..];
    }
  }

  /** Where the k-th percentile stands among `n` sorted samples. */
  function Rank(n: nat, k: nat): (i: nat)
    requires n > 0
    ensures i < n
  {
    if n * k / 100 < n - 1 then n * k / 100 else n - 1
  }

  lemma RankInRange(n: nat, k: nat)
    requires n > 0 && k < 100
    ensures Rank(n, k) == n * k / 100
  {
    assert n * k <= n * 99;
  }

  lemma RankIsPercentile(s: seq<u64>, k: nat)
    requires Ascending(s) && s != [] && k < 100
    ensures IsPercentile(s, k, s[Rank(|s|, k)])
  {
    RankInRange(|s|, k);
    AtRank(s, Rank(|s|, k));
  }

  lemma AtRank(s: seq<u64>, i: nat)
    requires Ascending(s) && i < |s|
    ensures CountBelow(s, s[i]) <= i < CountBelow(s, s[i] as int + 1)
  {
    var v: int := s[i];
    CountBounds(s, v, i);
    CountBounds(s, v + 1, i + 1);
  }

  // ---------------------------------------------------------------- the ring

  /** The samples a ring keeps of everything pushed. */
  function Retained(history: seq<u64>): seq<u64> {
    if |history| <= MAX_SAMPLES then history else history[|history| - MAX_SAMPLES..]
  }

  class SampleBuffer {
    var samples: seq<u64>
    var nextIndex: nat
    var total: u64
    ghost var history: seq<u64>      // every sample ever pushed
    ghost const owner: TrackerKey    // the key whose ring this is

    /** Read from the oldest on, the ring is the most recent samples in order. */
    ghost predicate Valid()
      reads this
    {
      |samples| == |Retained(history)| && nextIndex <= |samples|
      && (|history| < MAX_SAMPLES ==> nextIndex == 0) && nextIndex < MAX_SAMPLES
      && samples[nextIndex..] + samples[..nextIndex] == Retained(history)
      && total == if |history| <= U64_MAX then |history| else U64_MAX
    }

    constructor (ghost owner: TrackerKey)
      ensures Valid() && history == [] && this.owner == owner
    {
      samples, nextIndex, total, history := [], 0, 0, [];
      this.owner := owner;
    }

    method Push(sample: u64)
      requires Valid()
      modifies this
      ensures Valid() && history == old(history) + [sample]
    {
      RetainedSnoc(history, sample);
      assert |samples| <= MAX_SAMPLES && (|samples| < MAX_SAMPLES <==> |history| < MAX_SAMPLES);
      hide Retained;
      if |samples| < MAX_SAMPLES {
        samples := samples + [sample];
      } else {
        samples := samples[nextIndex := sample];
        nextIndex := (nextIndex + 1) % MAX_SAMPLES;
        RingAdvances(old(samples), old(nextIndex), sample);
      }
      total := if total < U64_MAX then total + 1 else U64_MAX;
      history := history + [sample];
    }

    lemma SameSamples()
      requires Valid()
      ensures multiset(samples) == multiset(Retained(history))
    {
      assert samples == samples[..nextIndex] + samples[nextIndex..];
    }

    /** Exact percentiles of the retained samples. */
    method Percentiles() returns (p50: u64, p95: u64, p99: u64, max: u64)
      requires Valid()
      ensures Summarised(Retained(history), p50, p95, p99, max)
      ensures p50 <= p95 <= p99 <= max
    {
      SameSamples();
      SortSummarises(samples, Retained(history));
      if samples == [] {
        return 0, 0, 0, 0;
      }
      hide *;
      var sorted := Sort(samples);
      var n := |sorted|;
      p50 := sorted[Rank(n, 50)];
      p95 := sorted[Rank(n, 95)];
      p99 := sorted[Rank(n, 99)];
      max := sorted[n - 1];
      SummaryOrdered(Retained(history), p50, p95, p99, max);
    }
  }

  /** What is reported, in numbers: of the last 1024 samples, at most half are below the first figure and more than half
      are not above it; and so at 95 and 99 percent; and none is above the last. Without samples all are zero. */
  lemma SummaryMeans(history: seq<u64>, p50: u64, p95: u64, p99: u64, max: u64)
    requires Summarised(Retained(history), p50, p95, p99, max)
    ensures history == [] ==> p50 == p95 == p99 == max == 0
    ensures var kept := if |history| <= 1024 then history else history[|history| - 1024..];
            kept != [] ==>
              CountBelow(kept, p50) <= |kept| * 50 / 100 < CountBelow(kept, p50 as int + 1)
              && CountBelow(kept, p95) <= |kept| * 95 / 100 < CountBelow(kept, p95 as int + 1)
              && CountBelow(kept, p99) <= |kept| * 99 / 100 < CountBelow(kept, p99 as int + 1)
              && p50 in kept && p95 in kept && p99 in kept && max in kept && forall x :: x in kept ==> x <= max
  {
  }

  lemma RetainedSnoc(history: seq<u64>, x: u64)
    ensures Retained(history + [x])
            == (if |history| < MAX_SAMPLES then Retained(history) else Retained(history)[1..]) + [x]
  {
  }

  lemma RingAdvances(samples: seq<u64>, at: nat, sample: u64)
    requires |samples| == MAX_SAMPLES && at < MAX_SAMPLES
    ensures var next := (at + 1) % MAX_SAMPLES;
            samples[at := sample][next..] + samples[at := sample][..next]
            == (samples[at..] + samples[..at])[1..] + [sample]
  {
  }

  ghost predicate Summarised(s: seq<u64>, p50: u64, p95: u64, p99: u64, max: u64) {
    if s == [] then p50 == p95 == p99 == max == 0
    else IsPercentile(s, 50, p50) && IsPercentile(s, 95, p95) && IsPercentile(s, 99, p99) && IsMaximum(s, max)
  }

  lemma SummaryOrdered(s: seq<u64>, p50: u64, p95: u64, p99: u64, max: u64)
    requires Summarised(s, p50, p95, p99, max)
    ensures p50 <= p95 <= p99 <= max
  {
    if s != [] {
      PercentilesOrdered(s, 50, p50, 95, p95);
      PercentilesOrdered(s, 95, p95, 99, p99);
    }
  }

  lemma SortSummarises(samples: seq<u64>, s: seq<u64>)
    requires multiset(samples) == multiset(s)
    ensures samples == [] ==> Summarised(s, 0, 0, 0, 0)
    ensures samples != [] ==>
              var sorted := Sort(samples); var n := |sorted|;
              Summarised(s, sorted[Rank(n, 50)], sorted[Rank(n, 95)], sorted[Rank(n, 99)], sorted[n - 1])
  {
    SortSorts(samples);
    hide Sort, IsPercentile;
    assert |s| == |multiset(s)| == |samples| == |multiset(Sort(samples))|;
    if samples != [] {
      SortedSummarises(Sort(samples), s);
    }
  }

  lemma SortedSummarises(sorted: seq<u64>, s: seq<u64>)
    requires Ascending(sorted) && sorted != [] && multiset(sorted) == multiset(s)
    ensures var n := |sorted|;
            Summarised(s, sorted[Rank(n, 50)], sorted[Rank(n, 95)], sorted[Rank(n, 99)], sorted[n - 1])
  {
    var n := |sorted|;
    RankIsPercentile(sorted, 50);
    RankIsPercentile(sorted, 95);
    RankIsPercentile(sorted, 99);
    assert IsMaximum(sorted, sorted[n - 1]);
    hide IsPercentile, IsMaximum;
    PercentileOfMultiset(sorted, s, 50, sorted[Rank(n, 50)]);
    PercentileOfMultiset(sorted, s, 95, sorted[Rank(n, 95)]);
    PercentileOfMultiset(sorted, s, 99, sorted[Rank(n, 99)]);
    PercentileOfMultiset(sorted, s, 99, sorted[n - 1]);
    assert |s| == |multiset(s)| == n;
  }

  // ---------------------------------------------------------------- one ring per key

  datatype TrackerKey = TrackerKey(broadcast: Str, transport: Str)

  datatype SloEntry = SloEntry(key: TrackerKey, p50: u64, p95: u64, p99: u64, max: u64, sampleCount: nat,
                               totalObserved: u64)

  predicate KeyLess(a: TrackerKey, b: TrackerKey) {
    PairLess(a.broadcast, a.transport, b.broadcast, b.transport)
  }

  ghost predicate KeyOrdered(out: seq<SloEntry>) {
    forall i, j :: 0 <= i < j < |out| ==> KeyLess(out[i].key, out[j].key)
  }

  /** The entry reports exactly that history. */
  ghost predicate Reports(e: SloEntry, history: seq<u64>) {
    Summarised(Retained(history), e.p50, e.p95, e.p99, e.max) && e.sampleCount == |Retained(history)|
    && e.totalObserved == if |history| <= U64_MAX then |history| else U64_MAX
  }

  /** The collected entries sorted by key: `sort_by` on distinct keys. */
  method SortIn(out: seq<SloEntry>, e: SloEntry) returns (out': seq<SloEntry>)
    requires KeyOrdered(out) && forall i :: 0 <= i < |out| ==> out[i].key != e.key
    ensures KeyOrdered(out') && forall x :: x in out' <==> x in out || x == e
  {
    hide PairLess;
    var at := 0;
    while at < |out| && KeyLess(out[at].key, e.key)
      invariant at <= |out|
      invariant forall i :: 0 <= i < at ==> KeyLess(out[i].key, e.key)
    {
      at := at + 1;
    }
    out' := out[..at] + [e] + out[at..];
    forall i | at <= i < |out| ensures KeyLess(e.key, out[i].key) {
      var k, a, b := e.key, out[at].key, out[i].key;
      PairLessOrder(k.broadcast, k.transport, a.broadcast, a.transport, b.broadcast, b.transport);
    }
    assert forall x :: x in out <==> x in out[..at] || x in out[at..];
  }

  class LatencyTracker {
    var buckets: map<TrackerKey, SampleBuffer>
    ghost var rings: set<SampleBuffer>
    ghost var histories: map<TrackerKey, seq<u64>>     // every sample ever recorded, by key

    ghost predicate Valid()
      reads this, rings
    {
      histories.Keys == buckets.Keys
      && forall k :: k in buckets ==> Keeps(k)
    }

    ghost predicate Keeps(k: TrackerKey)
      requires k in buckets && k in histories
      reads this, rings
    {
      buckets[k] in rings && buckets[k].owner == k && buckets[k].Valid() && buckets[k].history == histories[k]
    }

    constructor ()
      ensures Valid() && histories == map[]
    {
      buckets, histories, rings := map[], map[], {};
    }

    /** `entry(key).or_default()`. */
    method Bucket(key: TrackerKey) returns (buffer: SampleBuffer)
      requires Valid()
      modifies this
      ensures Valid() && fresh(rings - old(rings))
      ensures key in buckets && buckets[key] == buffer
      ensures histories == if key in old(histories) then old(histories) else old(histories)[key := []]
    {
      if key !in buckets {
        var empty := new SampleBuffer(key);
        hide SampleBuffer.Valid, ValidUtf8;
        buckets := buckets[key := empty];
        rings := rings + {empty};
        histories := histories[key := []];
      }
      hide SampleBuffer.Valid, ValidUtf8;
      buffer := buckets[key];
    }

    /** One more sample in that key's history, and no other key's history touched. */
    method Record(broadcast: Str, transport: Str, latency: u64)
      requires Valid()
      modifies this, rings
      ensures Valid() && fresh(rings - old(rings))
      ensures var key := TrackerKey(broadcast, transport);
              var before := if key in old(histories) then old(histories)[key] else [];
              histories == old(histories)[key := before + [latency]]
    {
      hide SampleBuffer.Valid, ValidUtf8;
      var key := TrackerKey(broadcast, transport);
      var buffer := Bucket(key);
      assert Keeps(key);
      buffer.Push(latency);
      histories := histories[key := buffer.history];
    }

    method Entry(key: TrackerKey) returns (e: SloEntry)
      requires Valid() && key in buckets
      ensures key in histories && e.key == key && Reports(e, histories[key])
    {
      hide Summarised, Retained;
      assert Keeps(key);
      var buffer := buckets[key];
      var p50, p95, p99, max := buffer.Percentiles();
      e := SloEntry(key, p50, p95, p99, max, |buffer.samples|, buffer.total);
    }

    /** One entry per key, in key order, each reporting exactly its own key's history. */
    method Snapshot() returns (out: seq<SloEntry>)
      requires Valid()
      ensures KeyOrdered(out)
      ensures forall i, j :: 0 <= i < j < |out| ==>
                LexLess(out[i].key.broadcast, out[j].key.broadcast)
                || (out[i].key.broadcast == out[j].key.broadcast
                    && LexLess(out[i].key.transport, out[j].key.transport))
      ensures forall e :: e in out ==> e.key in histories && Reports(e, histories[e.key])
      ensures forall k :: k in histories ==> exists e :: e in out && e.key == k
    {
      assert histories.Keys == buckets.Keys;
      out := [];
      var todo := buckets.Keys;
      assert Collected(histories, todo, out);
      hide Valid, Reports, Collected, ValidUtf8;
      while todo != {}
        invariant todo <= buckets.Keys && Collected(histories, todo, out)
        decreases todo
      {
        var key :| key in todo;
        var e := Entry(key);
        CollectedIsSorted(histories, todo, out);
        var out' := SortIn(out, e);
        CollectOne(histories, todo, out, out', e);
        out := out';
        todo := todo - {key};
      }
      AllCollected(histories, out);
    }
  }

  /** The keys not in `todo` have their entries in `out`. */
  ghost predicate Collected(histories: map<TrackerKey, seq<u64>>, todo: set<TrackerKey>, out: seq<SloEntry>) {
    KeyOrdered(out)
    && (forall e :: e in out ==> e.key in histories && e.key !in todo && Reports(e, histories[e.key]))
    && forall k :: k in histories && k !in todo ==> exists e :: e in out && e.key == k
  }

  lemma CollectedIsSorted(histories: map<TrackerKey, seq<u64>>, todo: set<TrackerKey>, out: seq<SloEntry>)
    requires Collected(histories, todo, out)
    ensures KeyOrdered(out) && forall i :: 0 <= i < |out| ==> out[i].key !in todo
  {
    assert forall i :: 0 <= i < |out| ==> out[i] in out;
  }

  lemma CollectOne(histories: map<TrackerKey, seq<u64>>, todo: set<TrackerKey>, out: seq<SloEntry>,
                   out': seq<SloEntry>, e: SloEntry)
    requires Collected(histories, todo, out) && KeyOrdered(out') && forall x :: x in out' <==> x in out || x == e
    requires e.key in todo && e.key in histories && Reports(e, histories[e.key])
    ensures Collected(histories, todo - {e.key}, out')
  {
    hide KeyOrdered, Reports;
    forall k | k in histories && k !in todo - {e.key} ensures exists x :: x in out' && x.key == k {
      if k == e.key {
        assert e in out';
      } else {
        var x :| x in out && x.key == k;
        assert x in out';
      }
    }
  }

  lemma AllCollected(histories: map<TrackerKey, seq<u64>>, out: seq<SloEntry>)
    requires Collected(histories, {}, out)
    ensures KeyOrdered(out)
    ensures forall e :: e in out ==> e.key in histories && Reports(e, histories[e.key])
    ensures forall k :: k in histories ==> exists e :: e in out && e.key == k
  {
  }

  /** A key's percentiles, count and total are determined by its own history. */
  lemma {:induction false} ReportsUnique(e: SloEntry, e': SloEntry, history: seq<u64>)
    requires Reports(e, history) && Reports(e', history) && e.key == e'.key
    ensures e == e'
  {
    var s := Retained(history);
    if s != [] {
      PercentilesOrdered(s, 50, e.p50, 50, e'.p50);
      PercentilesOrdered(s, 95, e.p95, 95, e'.p95);
      PercentilesOrdered(s, 99, e.p99, 99, e'.p99);
    }
  }
}
