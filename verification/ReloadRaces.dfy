/** Overlapping config reloads (crates/lvqr-cli/src/config_reload.rs `reload`). The file is read and its provider
    built without touching shared state; then the ICE list, the HMAC secret and the remembered URLs are read for
    comparison; then the chain, the ICE list, the HMAC secret and the URLs are replaced, one after another. Nothing
    keeps two reloads from doing so at once. Those that fail to build their provider are not followed. */
module ReloadRaces {
  import opened Bytes
  import opened ConfigReload

  /** What the reload has done last. */
  datatype Phase = Built | IceRead | HmacRead | UrlsRead | ChainSwapped | IceSwapped | HmacSwapped

  /** A reload in flight: what it has read to compare with, and what it has replaced. Only the parts of `seen` and
      `replaced` that it has got to mean anything. */
  datatype Call = Call(file: ConfigFile, phase: Phase, seen: Live, replaced: Live)

  /** The live state and the reloads in flight, by number. For the record, the file of every reload so far, and which
      reload replaced each part last. */
  datatype State = State(live: Live, calls: map<nat, Call>, files: map<nat, ConfigFile>, chainBy: Option<nat>,
                         iceBy: Option<nat>, hmacBy: Option<nat>, urlsBy: Option<nat>)

  datatype Step =
    | Build(file: ConfigFile)
    | ReadIce
    | ReadHmac
    | ReadUrls
    | SwapChain
    | SwapIce
    | SwapHmac
    | Commit                                                // the URLs, with the status

  function Booted(boot: Boot): State {
    State(Derived(boot, None), map[], map[], None, None, None, None)
  }

  /** The phase a step starts from. */
  function Before(step: Step): Phase
    requires !step.Build?
  {
    match step
    case ReadIce => Built
    case ReadHmac => IceRead
    case ReadUrls => HmacRead
    case SwapChain => UrlsRead
    case SwapIce => ChainSwapped
    case SwapHmac => IceSwapped
    case Commit => HmacSwapped
  }

  ghost predicate Enabled(s: State, n: nat, step: Step) {
    if step.Build? then n !in s.files
    else n in s.calls && n in s.files && s.calls[n].file == s.files[n] && s.calls[n].phase == Before(step)
  }

  ghost function Next(boot: Boot, s: State, n: nat, step: Step): State
    requires Enabled(s, n, step)
  {
    if step.Build? then
      s.(calls := s.calls[n := Call(step.file, Built, s.live, s.live)], files := s.files[n := step.file])
    else
      var c, own := s.calls[n], Derived(boot, Some(s.calls[n].file));
      match step
      case ReadIce =>
        s.(calls := s.calls[n := c.(phase := IceRead, seen := c.seen.(ice := s.live.ice))])
      case ReadHmac =>
        s.(calls := s.calls[n := c.(phase := HmacRead, seen := c.seen.(hmac := s.live.hmac))])
      case ReadUrls =>
        var seen := c.seen.(jwksUrl := s.live.jwksUrl, webhookUrl := s.live.webhookUrl);
        s.(calls := s.calls[n := c.(phase := UrlsRead, seen := seen)])
      case SwapChain =>
        s.(live := s.live.(chain := own.chain), chainBy := Some(n),
           calls := s.calls[n := c.(phase := ChainSwapped, replaced := c.replaced.(chain := s.live.chain))])
      case SwapIce =>
        s.(live := s.live.(ice := own.ice), iceBy := Some(n),
           calls := s.calls[n := c.(phase := IceSwapped, replaced := c.replaced.(ice := s.live.ice))])
      case SwapHmac =>
        s.(live := s.live.(hmac := own.hmac), hmacBy := Some(n),
           calls := s.calls[n := c.(phase := HmacSwapped, replaced := c.replaced.(hmac := s.live.hmac))])
      case Commit =>
        s.(live := s.live.(jwksUrl := own.jwksUrl, webhookUrl := own.webhookUrl), urlsBy := Some(n),
           calls := s.calls - {n})
  }

  ghost predicate Run(boot: Boot, s: State, trace: seq<(nat, Step)>, end: State)
    decreases |trace|
  {
    if trace == [] then s == end
    else Enabled(s, trace[0].0, trace[0].1) && Run(boot, Next(boot, s, trace[0].0, trace[0].1), trace[1..], end)
  }

  // ---------------------------------------------------------------- what the live state is, on every run

  /** What the reload, or the boot, would make of the live state by itself. */
  ghost function From(boot: Boot, s: State, writer: Option<nat>): Live {
    Derived(boot, if writer.Some? && writer.value in s.files then Some(s.files[writer.value]) else None)
  }

  /** Each part is derived from the boot values and the file of the reload that replaced it last. */
  ghost predicate PartsDerived(boot: Boot, s: State) {
    s.live.chain == From(boot, s, s.chainBy).chain && s.live.ice == From(boot, s, s.iceBy).ice
    && s.live.hmac == From(boot, s, s.hmacBy).hmac && s.live.jwksUrl == From(boot, s, s.urlsBy).jwksUrl
    && s.live.webhookUrl == From(boot, s, s.urlsBy).webhookUrl
    && Known(s, s.chainBy) && Known(s, s.iceBy) && Known(s, s.hmacBy) && Known(s, s.urlsBy)
  }

  ghost predicate Known(s: State, writer: Option<nat>) { writer.None? || writer.value in s.files }

  /** Later reloads do not change what an earlier one stands for. */
  lemma FromStays(boot: Boot, s: State, n: nat, step: Step, writer: Option<nat>)
    requires Known(s, writer) && Enabled(s, n, step)
    ensures var s' := Next(boot, s, n, step); Known(s', writer) && From(boot, s', writer) == From(boot, s, writer)
    ensures !step.Build? ==> From(boot, s, Some(n)) == Derived(boot, Some(s.calls[n].file)) && Known(s, Some(n))
  {
    hide Derived;
  }

  lemma NextKeepsPartsDerived(boot: Boot, s: State, n: nat, step: Step)
    requires PartsDerived(boot, s) && Enabled(s, n, step)
    ensures PartsDerived(boot, Next(boot, s, n, step))
  {
    FromStays(boot, s, n, step, s.chainBy);
    FromStays(boot, s, n, step, s.iceBy);
    FromStays(boot, s, n, step, s.hmacBy);
    FromStays(boot, s, n, step, s.urlsBy);
    if !step.Build? {
      FromStays(boot, s, n, step, Some(n));
    }
    hide Derived, From, Known;
  }

  /** On every interleaving. */
  lemma {:induction false} RunKeepsPartsDerived(boot: Boot, s: State, trace: seq<(nat, Step)>, end: State)
    requires PartsDerived(boot, s) && Run(boot, s, trace, end)
    ensures PartsDerived(boot, end)
    decreases |trace|
  {
    if trace != [] {
      NextKeepsPartsDerived(boot, s, trace[0].0, trace[0].1);
      hide PartsDerived, Next, Enabled;
      RunKeepsPartsDerived(boot, Next(boot, s, trace[0].0, trace[0].1), trace[1..], end);
    }
  }

  /** The reload was the last to take that step. */
  ghost predicate LastTo(trace: seq<(nat, Step)>, step: Step, n: nat) {
    exists i :: 0 <= i < |trace| && LastAt(trace, step, n, i)
  }

  ghost predicate LastAt(trace: seq<(nat, Step)>, step: Step, n: nat, i: nat)
    requires i < |trace|
  {
    trace[i] == (n, step) && forall j :: i < j < |trace| ==> trace[j].1 != step
  }

  ghost function By(s: State, step: Step): Option<nat> {
    match step
    case SwapChain => s.chainBy
    case SwapIce => s.iceBy
    case SwapHmac => s.hmacBy
    case _ => s.urlsBy
  }

  /** The record of who replaced a part last is right. */
  lemma {:induction false} ByIsLast(boot: Boot, s: State, trace: seq<(nat, Step)>, end: State, step: Step)
    requires Run(boot, s, trace, end) && (step.SwapChain? || step.SwapIce? || step.SwapHmac? || step.Commit?)
    ensures forall n: nat :: LastTo(trace, step, n) ==> By(end, step) == Some(n)
    ensures By(end, step) == By(s, step) || exists n: nat :: LastTo(trace, step, n)
    decreases |trace|
  {
    if trace != [] {
      var s' := Next(boot, s, trace[0].0, trace[0].1);
      ByIsLast(boot, s', trace[1..], end, step);
      assert trace[0].1 != step ==> By(s', step) == By(s, step);
      assert trace[0].1 == step ==> By(s', step) == Some(trace[0].0);
      hide Next, Enabled;
      LastOfRest(trace, step);
    }
  }

  lemma LastOfRest(trace: seq<(nat, Step)>, step: Step)
    requires trace != []
    ensures forall n: nat :: LastTo(trace[1..], step, n) ==> LastTo(trace, step, n)
    ensures forall n: nat :: LastTo(trace, step, n) ==>
              LastTo(trace[1..], step, n) || (trace[0] == (n, step) && forall m: nat :: !LastTo(trace[1..], step, m))
    ensures trace[0].1 == step && (forall m: nat :: !LastTo(trace[1..], step, m)) ==> LastTo(trace, step, trace[0].0)
  {
    forall n: nat | LastTo(trace[1..], step, n) ensures LastTo(trace, step, n) {
      var i :| 0 <= i < |trace[1..]| && LastAt(trace[1..], step, n, i);
      assert LastAt(trace, step, n, i + 1);
    }
    forall n: nat | LastTo(trace, step, n)
      ensures LastTo(trace[1..], step, n) || (trace[0] == (n, step) && forall m: nat :: !LastTo(trace[1..], step, m))
    {
      var i :| 0 <= i < |trace| && LastAt(trace, step, n, i);
      if i > 0 {
        assert LastAt(trace[1..], step, n, i - 1);
      }
    }
    if trace[0].1 == step && forall m: nat :: !LastTo(trace[1..], step, m) {
      SomeLast(trace[1..], step);
      assert LastAt(trace, step, trace[0].0, 0);
    }
  }

  /** A step that was taken at all was taken last by someone. */
  lemma {:induction false} SomeLast(trace: seq<(nat, Step)>, step: Step)
    ensures (exists n: nat :: LastTo(trace, step, n)) <==> exists i :: 0 <= i < |trace| && trace[i].1 == step
    decreases |trace|
  {
    if i :| 0 <= i < |trace| && trace[i].1 == step {
      LatestFrom(trace, step, i);
    }
  }

  lemma {:induction false} LatestFrom(trace: seq<(nat, Step)>, step: Step, i: nat)
    requires i < |trace| && trace[i].1 == step
    ensures exists n: nat :: LastTo(trace, step, n)
    decreases |trace| - i
  {
    if j :| i < j < |trace| && trace[j].1 == step {
      LatestFrom(trace, step, j);
    } else {
      assert LastAt(trace, step, trace[i].0, i);
      assert LastTo(trace, step, trace[i].0);
    }
  }

  /** For every run: the live state is that of the last reload to commit exactly when each part was replaced last by
      that same reload, or by one (or the boot) that gave it the same value. */
  lemma {:induction false} LiveIsLastCommittedIff(boot: Boot, trace: seq<(nat, Step)>, s: State)
    requires Run(boot, Booted(boot), trace, s)
    ensures s.live == From(boot, s, s.urlsBy) <==>
              (s.chainBy == s.urlsBy || From(boot, s, s.chainBy).chain == From(boot, s, s.urlsBy).chain)
              && (s.iceBy == s.urlsBy || From(boot, s, s.iceBy).ice == From(boot, s, s.urlsBy).ice)
              && (s.hmacBy == s.urlsBy || From(boot, s, s.hmacBy).hmac == From(boot, s, s.urlsBy).hmac)
    ensures forall n: nat :: (LastTo(trace, SwapChain, n) ==> s.chainBy == Some(n))
                        && (LastTo(trace, SwapIce, n) ==> s.iceBy == Some(n))
                        && (LastTo(trace, SwapHmac, n) ==> s.hmacBy == Some(n))
                        && (LastTo(trace, Commit, n) ==> s.urlsBy == Some(n))
    ensures (forall n: nat :: !LastTo(trace, Commit, n)) ==> s.urlsBy == None
  {
    RunKeepsPartsDerived(boot, Booted(boot), trace, s);
    ByIsLast(boot, Booted(boot), trace, s, SwapChain);
    ByIsLast(boot, Booted(boot), trace, s, SwapIce);
    ByIsLast(boot, Booted(boot), trace, s, SwapHmac);
    ByIsLast(boot, Booted(boot), trace, s, Commit);
    hide Run, Derived, LastTo;
  }

  /** The same of any one file, or of the boot: the live state belongs to it exactly when each part's last writer gave
      that part the value it would have. */
  lemma {:induction false} LiveIsOfOneFileIff(boot: Boot, trace: seq<(nat, Step)>, s: State)
    requires Run(boot, Booted(boot), trace, s)
    ensures forall file :: s.live == Derived(boot, file) <==>
              From(boot, s, s.chainBy).chain == Derived(boot, file).chain
              && From(boot, s, s.iceBy).ice == Derived(boot, file).ice
              && From(boot, s, s.hmacBy).hmac == Derived(boot, file).hmac
              && From(boot, s, s.urlsBy).jwksUrl == Derived(boot, file).jwksUrl
              && From(boot, s, s.urlsBy).webhookUrl == Derived(boot, file).webhookUrl
  {
    RunKeepsPartsDerived(boot, Booted(boot), trace, s);
    hide Run, Derived;
  }

  // ---------------------------------------------------------------- reloads whose swaps do not overlap

  /** The reload has begun to replace live state. */
  predicate MidSwap(c: Call) { c.phase.ChainSwapped? || c.phase.IceSwapped? || c.phase.HmacSwapped? }

  /** No reload is swapping. */
  ghost predicate Idle(s: State) { forall n :: n in s.calls ==> !MidSwap(s.calls[n]) }

  /** A reload begins to swap only while no other one is at it; reading and building may overlap freely. */
  ghost predicate Alone(s: State, step: Step) { step.SwapChain? ==> Idle(s) }

  ghost predicate AllAlone(boot: Boot, s: State, trace: seq<(nat, Step)>)
    decreases |trace|
  {
    trace != [] && Enabled(s, trace[0].0, trace[0].1) ==>
      Alone(s, trace[0].1) && AllAlone(boot, Next(boot, s, trace[0].0, trace[0].1), trace[1..])
  }

  ghost predicate OneWriter(s: State) { s.chainBy == s.iceBy == s.hmacBy == s.urlsBy }

  ghost predicate HalfWritten(s: State, n: nat, c: Call) {
    match c.phase
    case ChainSwapped => s.chainBy == Some(n) && s.iceBy == s.hmacBy == s.urlsBy
    case IceSwapped => s.chainBy == s.iceBy == Some(n) && s.hmacBy == s.urlsBy
    case HmacSwapped => s.chainBy == s.iceBy == s.hmacBy == Some(n)
    case _ => true
  }

  /** At most one reload is swapping; what it has not replaced yet is all from one reload, and so is everything when
      none is swapping. */
  ghost predicate Tidy(s: State) {
    (forall n, m :: n in s.calls && m in s.calls && MidSwap(s.calls[n]) && MidSwap(s.calls[m]) ==> n == m)
    && (forall n :: n in s.calls && MidSwap(s.calls[n]) ==> HalfWritten(s, n, s.calls[n]))
    && (Idle(s) ==> OneWriter(s))
  }

  lemma OthersStay(boot: Boot, s: State, n: nat, step: Step)
    requires Enabled(s, n, step)
    ensures var s' := Next(boot, s, n, step);
            forall m :: m != n ==> (m in s'.calls <==> m in s.calls) && (m in s.calls ==> s'.calls[m] == s.calls[m])
  {
    hide Derived;
  }

  lemma IdleBefore(boot: Boot, s: State, n: nat, step: Step)
    requires Enabled(s, n, step) && (step.Build? || step.ReadIce? || step.ReadHmac? || step.ReadUrls?)
    requires step.Build? ==> n !in s.calls
    ensures var s' := Next(boot, s, n, step); !MidSwap(s'.calls[n]) && (Idle(s') ==> Idle(s))
  {
    hide Derived;
    var s' := Next(boot, s, n, step);
    OthersStay(boot, s, n, step);
    if m :| m in s.calls && MidSwap(s.calls[m]) {
      assert m in s'.calls && MidSwap(s'.calls[m]);
    }
  }

  lemma SwapKeepsTidy(boot: Boot, s: State, n: nat, step: Step)
    requires Tidy(s) && Enabled(s, n, step) && Alone(s, step)
    requires step.SwapChain? || step.SwapIce? || step.SwapHmac?
    ensures Tidy(Next(boot, s, n, step))
  {
    hide Derived;
    OthersStay(boot, s, n, step);
    assert MidSwap(Next(boot, s, n, step).calls[n]);
  }

  lemma CommitKeepsTidy(boot: Boot, s: State, n: nat)
    requires Tidy(s) && Enabled(s, n, Commit)
    ensures Tidy(Next(boot, s, n, Commit))
  {
    hide Derived;
    OthersStay(boot, s, n, Commit);
    assert MidSwap(s.calls[n]) && HalfWritten(s, n, s.calls[n]);
  }

  lemma NextKeepsTidy(boot: Boot, s: State, n: nat, step: Step)
    requires Tidy(s) && Enabled(s, n, step) && Alone(s, step)
    requires step.Build? ==> n !in s.calls
    ensures Tidy(Next(boot, s, n, step))
  {
    hide Derived;
    if step.Build? || step.ReadIce? || step.ReadHmac? || step.ReadUrls? {
      OthersStay(boot, s, n, step);
      IdleBefore(boot, s, n, step);
    } else if step.Commit? {
      CommitKeepsTidy(boot, s, n);
    } else {
      SwapKeepsTidy(boot, s, n, step);
    }
  }

  ghost predicate CallsKnown(s: State) { forall n :: n in s.calls ==> n in s.files && s.files[n] == s.calls[n].file }

  lemma {:induction false} AloneRunsStayTidy(boot: Boot, s: State, trace: seq<(nat, Step)>, end: State)
    requires Tidy(s) && CallsKnown(s) && Run(boot, s, trace, end) && AllAlone(boot, s, trace)
    ensures Tidy(end) && CallsKnown(end)
    decreases |trace|
  {
    if trace != [] {
      var n, step := trace[0].0, trace[0].1;
      NextKeepsTidy(boot, s, n, step);
      NextKeepsKnown(boot, s, n, step);
      hide Tidy, CallsKnown, Next, Enabled, Alone;
      AloneRunsStayTidy(boot, Next(boot, s, n, step), trace[1..], end);
    }
  }

  lemma NextKeepsKnown(boot: Boot, s: State, n: nat, step: Step)
    requires CallsKnown(s) && Enabled(s, n, step)
    ensures CallsKnown(Next(boot, s, n, step))
  {
    hide Derived;
    OthersStay(boot, s, n, step);
  }

  /** When the swaps of different reloads do not overlap, then whenever none is swapping the live state is that of the
      last reload to commit. */
  lemma {:induction false} AloneRunsAreNeverMixed(boot: Boot, trace: seq<(nat, Step)>, s: State)
    requires Run(boot, Booted(boot), trace, s) && AllAlone(boot, Booted(boot), trace) && Idle(s)
    ensures OneWriter(s) && s.live == From(boot, s, s.urlsBy)
  {
    AloneRunsStayTidy(boot, Booted(boot), trace, s);
    LiveIsLastCommittedIff(boot, trace, s);
    hide Run, AllAlone, From;
  }
}
