/** The transcription worker's windowing loop (crates/lvqr-agent-whisper/src/worker.rs). */
module Whisper {
  import opened Bytes

  /** One queued frame and what the decoder made of it: samples, or an error. Samples are opaque values here. */
  datatype Frame<Sample> = Frame(dts: u64, decoded: Option<seq<Sample>>)

  /** One inference pass: the slice given to the model and the time it starts at. */
  datatype Pass<Sample> = Pass(start: u64, pcm: seq<Sample>)

  /** Every successfully decoded sample, in order. */
  function Decoded<Sample>(frames: seq<Frame<Sample>>): seq<Sample> {
    if frames == [] then []
    else
      var last := frames[|frames| - 1];
      Decoded(frames[..|frames| - 1]) + if last.decoded.Some? then last.decoded.value else []
  }

  function Joined<Sample>(passes: seq<Pass<Sample>>): seq<Sample> {
    if passes == [] then [] else Joined(passes[..|passes| - 1]) + passes[|passes| - 1].pcm
  }

  /** No frame from `from` up to `end` fills the window. */
  ghost predicate Short<Sample>(frames: seq<Frame<Sample>>, from: nat, end: nat, window: nat)
    requires end <= |frames|
  {
    forall k :: from <= k < end && frames[k].decoded.Some? ==> |Decoded(frames[from..k + 1])| < window
  }

  /** A pass over the frames from `from` up to `end`, run as soon as a decoded frame fills the window. */
  ghost predicate Runs<Sample>(p: Pass<Sample>, frames: seq<Frame<Sample>>, from: nat, end: nat, window: nat) {
    from < end <= |frames| && p == Pass(frames[from].dts, Decoded(frames[from..end]))
    && frames[end - 1].decoded.Some? && |p.pcm| >= window && Short(frames, from, end - 1, window)
  }

  /** The pass on close, over whatever is left. */
  ghost predicate Closes<Sample>(passes: seq<Pass<Sample>>, frames: seq<Frame<Sample>>, from: nat) {
    from <= |frames|
    && if Decoded(frames[from..]) == [] then passes == []
       else from < |frames| && passes == [Pass(frames[from].dts, Decoded(frames[from..]))]
  }

  /** Pass `i` takes the frames from `cuts[i]`, the first after the pass before it, up to `cuts[i + 1]`. */
  ghost predicate FullPass<Sample>(passes: seq<Pass<Sample>>, frames: seq<Frame<Sample>>, cuts: seq<nat>,
                                   window: nat, i: nat)
  {
    i < |passes| && i + 1 < |cuts| && Runs(passes[i], frames, cuts[i], cuts[i + 1], window)
  }

  ghost predicate FullPasses<Sample>(passes: seq<Pass<Sample>>, frames: seq<Frame<Sample>>, cuts: seq<nat>,
                                     window: nat)
  {
    cuts != [] && |cuts| - 1 <= |passes| && cuts[0] == 0
    && forall i :: 0 <= i < |cuts| - 1 ==> FullPass(passes, frames, cuts, window, i)
  }

  /** The passes of one run: full windows, and when no more fill, one last pass over what is left. */
  ghost predicate Windows<Sample>(passes: seq<Pass<Sample>>, frames: seq<Frame<Sample>>, cuts: seq<nat>, window: nat) {
    FullPasses(passes, frames, cuts, window)
    && var n := |cuts| - 1;
    Short(frames, cuts[n], |frames|, window) && Closes(passes[n..], frames, cuts[n])
  }

  lemma DecodedSnoc<Sample>(frames: seq<Frame<Sample>>, from: nat, at: nat)
    requires from <= at < |frames|
    ensures Decoded(frames[from..at + 1])
            == Decoded(frames[from..at]) + if frames[at].decoded.Some? then frames[at].decoded.value else []
  {
    assert frames[from..at + 1][..at - from] == frames[from..at];
  }

  lemma OnePassMore<Sample>(passes: seq<Pass<Sample>>, frames: seq<Frame<Sample>>, cuts: seq<nat>, window: nat,
                            p: Pass<Sample>, end: nat)
    requires FullPasses(passes, frames, cuts, window) && |cuts| == |passes| + 1
    requires Runs(p, frames, cuts[|passes|], end, window)
    ensures FullPasses(passes + [p], frames, cuts + [end], window)
  {
    hide Runs;
    forall i | 0 <= i <= |passes| ensures FullPass(passes + [p], frames, cuts + [end], window, i) {
      assert i < |passes| ==> FullPass(passes, frames, cuts, window, i);
    }
  }

  lemma ThenCloses<Sample>(passes: seq<Pass<Sample>>, frames: seq<Frame<Sample>>, cuts: seq<nat>, window: nat,
                           last: seq<Pass<Sample>>)
    requires FullPasses(passes, frames, cuts, window) && |cuts| == |passes| + 1 && cuts[|passes|] <= |frames|
    requires Short(frames, cuts[|passes|], |frames|, window) && Closes(last, frames, cuts[|passes|])
    ensures Windows(passes + last, frames, cuts, window)
  {
    hide Runs, Short, Closes;
    forall i | 0 <= i < |passes| ensures FullPass(passes + last, frames, cuts, window, i) {
      assert FullPass(passes, frames, cuts, window, i);
    }
    assert (passes + last)[|passes|..] == last;
  }

  /** The worker thread: receives frames until the channel closes, then runs a final pass. */
  method Run<Sample>(frames: seq<Frame<Sample>>, window: nat) returns (passes: seq<Pass<Sample>>, ghost cuts: seq<nat>)
    ensures Windows(passes, frames, cuts, window)
    ensures Joined(passes) == Decoded(frames)
  {
    hide FullPasses, Decoded;
    var pcm: seq<Sample> := [];
    var windowStart: Option<u64> := None;
    passes := [];
    cuts := [0];
    ghost var from := 0;
    Start(frames, window);
    assert frames[0..0] == [];
    for i := 0 to |frames|
      invariant |cuts| == |passes| + 1 && cuts[|passes|] == from <= i
      invariant pcm == Decoded(frames[from..i])
      invariant windowStart == if i == from then None else Some(frames[from].dts)
      invariant Short(frames, from, i, window)
      invariant FullPasses(passes, frames, cuts, window)
    {
      DecodedSnoc(frames, from, i);
      if windowStart.None? {
        windowStart := Some(frames[i].dts);
      }
      match frames[i].decoded {
        case None => continue;
        case Some(samples) => pcm := pcm + samples;
      }
      if |pcm| >= window && windowStart.Some? {
        OnePassMore(passes, frames, cuts, window, Pass(windowStart.value, pcm), i + 1);
        passes := passes + [Pass(windowStart.value, pcm)];
        windowStart := None;
        pcm := [];
        cuts := cuts + [i + 1];
        from := i + 1;
        assert frames[i + 1..i + 1] == [];
      }
    }
    assert frames[from..|frames|] == frames[from..];
    var last := if windowStart.Some? && pcm != [] then [Pass(windowStart.value, pcm)] else [];
    ThenCloses(passes, frames, cuts, window, last);
    passes := passes + last;
    PassesConserve(passes, frames, cuts, window);
  }

  lemma Start<Sample>(frames: seq<Frame<Sample>>, window: nat)
    ensures Decoded<Sample>([]) == [] && FullPasses([], frames, [0], window)
  {
  }

  // ---------------------------------------------------------------- what the passes keep

  lemma {:induction false} DecodedConcat<Sample>(a: seq<Frame<Sample>>, b: seq<Frame<Sample>>)
    ensures Decoded(a + b) == Decoded(a) + Decoded(b)
  {
    if b == [] {
      assert a + b == a;
    } else {
      assert (a + b)[..|a + b| - 1] == a + b[..|b| - 1];
      DecodedConcat(a, b[..|b| - 1]);
    }
  }

  lemma {:induction false} FullPassesConserve<Sample>(passes: seq<Pass<Sample>>, frames: seq<Frame<Sample>>,
                                                      cuts: seq<nat>, window: nat, n: nat)
    requires FullPasses(passes, frames, cuts, window) && n < |cuts|
    ensures cuts[n] <= |frames| && Joined(passes[..n]) == Decoded(frames[..cuts[n]])
  {
    if n > 0 {
      FullPassesConserve(passes, frames, cuts, window, n - 1);
      assert FullPass(passes, frames, cuts, window, n - 1);
      hide FullPasses, Short;
      assert passes[..n][..n - 1] == passes[..n - 1];
      DecodedConcat(frames[..cuts[n - 1]], frames[cuts[n - 1]..cuts[n]]);
      assert frames[..cuts[n]] == frames[..cuts[n - 1]] + frames[cuts[n - 1]..cuts[n]];
    }
  }

  /** No sample is lost, repeated or reordered: the passes concatenate to everything decoded. */
  lemma {:induction false} PassesConserve<Sample>(passes: seq<Pass<Sample>>, frames: seq<Frame<Sample>>,
                                                  cuts: seq<nat>, window: nat)
    requires Windows(passes, frames, cuts, window)
    ensures Joined(passes) == Decoded(frames)
  {
    var n := |cuts| - 1;
    FullPassesConserve(passes, frames, cuts, window, n);
    DecodedConcat(frames[..cuts[n]], frames[cuts[n]..]);
    assert frames == frames[..cuts[n]] + frames[cuts[n]..];
    hide FullPasses, Decoded, Short;
    if |passes| == n {
      assert passes[..n] == passes;
    } else {
      assert passes[n..] == [passes[n]] && passes[..|passes| - 1] == passes[..n];
    }
  }

  lemma {:induction false} ShortHolds<Sample>(frames: seq<Frame<Sample>>, from: nat, end: nat, window: nat)
    requires from <= end <= |frames| && Short(frames, from, end, window)
    ensures window > 0 ==> |Decoded(frames[from..end])| < window
    decreases end
  {
    if window > 0 && from < end {
      DecodedSnoc(frames, from, end - 1);
      ShortHolds(frames, from, end - 1, window);
    }
  }

  /** Every pass before the close starts with the first frame after the pass before it, and holds at least a window of
      samples but less than its last frame's output more. */
  lemma {:induction false} FullPassLength<Sample>(passes: seq<Pass<Sample>>, frames: seq<Frame<Sample>>,
                                                  cuts: seq<nat>, window: nat, i: nat)
    requires Windows(passes, frames, cuts, window) && i < |cuts| - 1
    ensures cuts[i] < cuts[i + 1] <= |frames| && passes[i].start == frames[cuts[i]].dts
    ensures var last := frames[cuts[i + 1] - 1].decoded;
            last.Some? && window <= |passes[i].pcm|
            && (window > 0 ==> |passes[i].pcm| < window + |last.value|)
  {
    assert FullPass(passes, frames, cuts, window, i);
    hide FullPasses;
    DecodedSnoc(frames, cuts[i], cuts[i + 1] - 1);
    ShortHolds(frames, cuts[i], cuts[i + 1] - 1, window);
  }

  lemma SameEnd<Sample>(p: Pass<Sample>, p': Pass<Sample>, frames: seq<Frame<Sample>>, from: nat, end: nat, end': nat,
                        window: nat)
    requires Runs(p, frames, from, end, window) && Runs(p', frames, from, end', window)
    ensures p == p' && end == end'
  {
  }

  lemma {:induction false} SameCuts<Sample>(passes: seq<Pass<Sample>>, cuts: seq<nat>, passes': seq<Pass<Sample>>,
                                            cuts': seq<nat>, frames: seq<Frame<Sample>>, window: nat, n: nat)
    requires FullPasses(passes, frames, cuts, window) && FullPasses(passes', frames, cuts', window)
    requires n < |cuts| && n < |cuts'|
    ensures cuts[..n + 1] == cuts'[..n + 1] && passes[..n] == passes'[..n]
  {
    if n > 0 {
      SameCuts(passes, cuts, passes', cuts', frames, window, n - 1);
      assert cuts[n - 1] == cuts[..n][n - 1] == cuts'[n - 1];
      assert FullPass(passes, frames, cuts, window, n - 1) && FullPass(passes', frames, cuts', window, n - 1);
      hide FullPasses, Runs;
      SameEnd(passes[n - 1], passes'[n - 1], frames, cuts[n - 1], cuts[n], cuts'[n], window);
      assert cuts[..n + 1] == cuts[..n] + [cuts[n]] && cuts'[..n + 1] == cuts'[..n] + [cuts'[n]];
      assert passes[..n] == passes[..n - 1] + [passes[n - 1]] && passes'[..n] == passes'[..n - 1] + [passes'[n - 1]];
    }
  }

  lemma NextPass<Sample>(passes: seq<Pass<Sample>>, cuts: seq<nat>, passes': seq<Pass<Sample>>, cuts': seq<nat>,
                         frames: seq<Frame<Sample>>, window: nat)
    requires FullPasses(passes, frames, cuts, window) && FullPasses(passes', frames, cuts', window)
    requires |cuts| < |cuts'|
    ensures var n := |cuts| - 1; Runs(passes'[n], frames, cuts[n], cuts'[n + 1], window)
  {
    var n := |cuts| - 1;
    SameCuts(passes, cuts, passes', cuts', frames, window, n);
    assert cuts[n] == cuts[..n + 1][n] == cuts'[n];
    assert FullPass(passes', frames, cuts', window, n);
  }

  lemma NoFewer<Sample>(passes: seq<Pass<Sample>>, cuts: seq<nat>, passes': seq<Pass<Sample>>, cuts': seq<nat>,
                        frames: seq<Frame<Sample>>, window: nat)
    requires Windows(passes, frames, cuts, window) && FullPasses(passes', frames, cuts', window)
    ensures |cuts'| <= |cuts|
  {
    if |cuts'| > |cuts| {
      NextPass(passes, cuts, passes', cuts', frames, window);
      assert false;
    }
  }

  /** The frames and the window determine the passes. */
  lemma {:induction false} WindowsUnique<Sample>(passes: seq<Pass<Sample>>, cuts: seq<nat>, passes': seq<Pass<Sample>>,
                                                 cuts': seq<nat>, frames: seq<Frame<Sample>>, window: nat)
    requires Windows(passes, frames, cuts, window) && Windows(passes', frames, cuts', window)
    ensures cuts == cuts' && passes == passes'
  {
    NoFewer(passes, cuts, passes', cuts', frames, window);
    NoFewer(passes', cuts', passes, cuts, frames, window);
    var n := |cuts| - 1;
    SameCuts(passes, cuts, passes', cuts', frames, window, n);
    hide FullPass, Short;
    assert cuts == cuts[..n + 1] && cuts' == cuts'[..n + 1];
    assert passes == passes[..n] + passes[n..] && passes' == passes'[..n] + passes'[n..];
  }
}
