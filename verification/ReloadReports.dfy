/** What a reload reports as changed, when reloads overlap: the differences between what it read before its swaps and
    what it wrote. */
module ReloadReports {
  import opened Bytes
  import opened ConfigReload
  import opened ReloadRaces

  /** The keys a reload reports: where what it read differs from what it writes. */
  ghost function Reported(boot: Boot, c: Call): seq<string> {
    Differences(c.seen, Derived(boot, Some(c.file)))
  }

  /** What a reload that is about to commit has replaced, and will have. */
  ghost function Overwritten(s: State, n: nat): Live
    requires n in s.calls
  {
    s.calls[n].replaced.(jwksUrl := s.live.jwksUrl, webhookUrl := s.live.webhookUrl)
  }

  /** The report of any reload says what it changed exactly when, of each category, what it read and what it replaced
      differ from the new value alike. */
  lemma {:induction false} ReportIsTrueIff(boot: Boot, s: State, n: nat)
    requires n in s.calls
    ensures var c, over := s.calls[n], Overwritten(s, n);
            var own := Derived(boot, Some(c.file));
            Reported(boot, c) == Differences(over, own) <==>
              (c.seen.ice != own.ice <==> over.ice != own.ice) && (c.seen.hmac != own.hmac <==> over.hmac != own.hmac)
              && (c.seen.jwksUrl != own.jwksUrl <==> over.jwksUrl != own.jwksUrl)
              && (c.seen.webhookUrl != own.webhookUrl <==> over.webhookUrl != own.webhookUrl)
  {
    hide Derived, Differences;
    SameDifferencesIff(s.calls[n].seen, Overwritten(s, n), Derived(boot, Some(s.calls[n].file)));
  }

  lemma SameDifferencesIff(a: Live, b: Live, own: Live)
    ensures Differences(a, own) == Differences(b, own) <==>
              (a.ice != own.ice <==> b.ice != own.ice) && (a.hmac != own.hmac <==> b.hmac != own.hmac)
              && (a.jwksUrl != own.jwksUrl <==> b.jwksUrl != own.jwksUrl)
              && (a.webhookUrl != own.webhookUrl <==> b.webhookUrl != own.webhookUrl)
  {
    DifferencesAreExact(a, own);
    DifferencesAreExact(b, own);
    if Differences(a, own) == Differences(b, own) {
      hide Differences;
    }
  }

  /** The reload has read what it will compare with, or is about to go on reading. */
  predicate MidReload(c: Call) { !c.phase.Built? }

  ghost predicate Quiet(s: State) { forall n :: n in s.calls ==> !MidReload(s.calls[n]) }

  /** A reload begins to read only while no other one is between its first read and its commit. */
  ghost predicate Sole(s: State, step: Step) { step.ReadIce? ==> Quiet(s) }

  ghost predicate AllSole(boot: Boot, s: State, trace: seq<(nat, Step)>)
    decreases |trace|
  {
    trace != [] && Enabled(s, trace[0].0, trace[0].1) ==>
      Sole(s, trace[0].1) && AllSole(boot, Next(boot, s, trace[0].0, trace[0].1), trace[1..])
  }

  /** What the reload has read is the state of the last reload to commit. */
  ghost predicate SeenRight(boot: Boot, s: State, c: Call) {
    var was := From(boot, s, s.urlsBy);
    !c.phase.Built? ==>
      c.seen.ice == was.ice
      && (!c.phase.IceRead? ==> c.seen.hmac == was.hmac)
      && (!c.phase.IceRead? && !c.phase.HmacRead? ==>
            c.seen.jwksUrl == was.jwksUrl && c.seen.webhookUrl == was.webhookUrl)
  }

  ghost predicate SoleInv(boot: Boot, s: State) {
    PartsDerived(boot, s) && Tidy(s) && CallsKnown(s) && OneMidReload(s)
    && (forall n :: n in s.calls ==> SeenRight(boot, s, s.calls[n]))
  }

  ghost predicate OneMidReload(s: State) {
    forall n, m :: n in s.calls && m in s.calls && MidReload(s.calls[n]) && MidReload(s.calls[m]) ==> n == m
  }

  /** A reload in its reading or swapping is the only one, so it swaps alone. */
  lemma SoleIsAlone(boot: Boot, s: State, n: nat, step: Step)
    requires SoleInv(boot, s) && Enabled(s, n, step) && Sole(s, step)
    ensures Alone(s, step)
    ensures step.ReadIce? || step.ReadHmac? || step.ReadUrls? ==> Idle(s)
  {
    hide Derived, PartsDerived, SeenRight, Tidy;
    if !step.Build? && !step.ReadIce? {
      assert MidReload(s.calls[n]);
    }
  }

  lemma NextKeepsSeen(boot: Boot, s: State, n: nat, step: Step, m: nat)
    requires SoleInv(boot, s) && Enabled(s, n, step) && Sole(s, step) && m in Next(boot, s, n, step).calls
    ensures SeenRight(boot, Next(boot, s, n, step), Next(boot, s, n, step).calls[m])
  {
    hide Derived, From;
    OthersStay(boot, s, n, step);
    SoleIsAlone(boot, s, n, step);
    FromStays(boot, s, n, step, s.urlsBy);
    if m != n {
      assert SeenRight(boot, s, s.calls[m]);
      if step.Commit? {
        assert MidReload(s.calls[n]);
      }
    } else if m in s.calls {
      assert SeenRight(boot, s, s.calls[m]);
    }
  }

  lemma NextKeepsOneMidReload(boot: Boot, s: State, n: nat, step: Step)
    requires OneMidReload(s) && Enabled(s, n, step) && Sole(s, step)
    ensures OneMidReload(Next(boot, s, n, step))
  {
    hide Derived;
    OthersStay(boot, s, n, step);
    assert !step.Build? && !step.ReadIce? ==> MidReload(s.calls[n]);
  }

  lemma {:induction false} SoleRunsKeepInv(boot: Boot, s: State, trace: seq<(nat, Step)>, end: State)
    requires SoleInv(boot, s) && Run(boot, s, trace, end) && AllSole(boot, s, trace)
    ensures SoleInv(boot, end)
    decreases |trace|
  {
    if trace != [] {
      var n, step := trace[0].0, trace[0].1;
      var s' := Next(boot, s, n, step);
      SoleIsAlone(boot, s, n, step);
      NextKeepsPartsDerived(boot, s, n, step);
      NextKeepsTidy(boot, s, n, step);
      NextKeepsKnown(boot, s, n, step);
      NextKeepsOneMidReload(boot, s, n, step);
      forall m | m in s'.calls ensures SeenRight(boot, s', s'.calls[m]) {
        NextKeepsSeen(boot, s, n, step, m);
      }
      hide PartsDerived, Tidy, CallsKnown, OneMidReload, SeenRight, Next, Sole;
      SoleRunsKeepInv(boot, s', trace[1..], end);
    }
  }

  /** When no reload begins to read between another one's first read and its commit, every report is exactly the
      differences of consecutive live states: that of the reload that committed before, and its own. */
  lemma {:induction false} SoleReportsAreConsecutive(boot: Boot, trace: seq<(nat, Step)>, s: State, n: nat)
    requires Run(boot, Booted(boot), trace, s) && AllSole(boot, Booted(boot), trace) && Enabled(s, n, Commit)
    ensures Next(boot, s, n, Commit).live == Derived(boot, Some(s.files[n]))
    ensures Reported(boot, s.calls[n]) == Differences(From(boot, s, s.urlsBy), Derived(boot, Some(s.files[n])))
  {
    SoleRunsKeepInv(boot, Booted(boot), trace, s);
    hide *;
    SoleCommit(boot, s, n);
  }

  lemma SoleCommit(boot: Boot, s: State, n: nat)
    requires SoleInv(boot, s) && Enabled(s, n, Commit)
    ensures Next(boot, s, n, Commit).live == Derived(boot, Some(s.files[n]))
    ensures Reported(boot, s.calls[n]) == Differences(From(boot, s, s.urlsBy), Derived(boot, Some(s.files[n])))
  {
    CommitCompletes(boot, s, n);
    assert SeenRight(boot, s, s.calls[n]);
    hide Derived, From, PartsDerived, Tidy, CallsKnown, Next, Differences;
    SameDifferencesIff(s.calls[n].seen, From(boot, s, s.urlsBy), Derived(boot, Some(s.files[n])));
  }

  lemma CommitCompletes(boot: Boot, s: State, n: nat)
    requires PartsDerived(boot, s) && Tidy(s) && Enabled(s, n, Commit)
    ensures Next(boot, s, n, Commit).live == Derived(boot, Some(s.files[n]))
  {
    hide Derived;
    assert MidSwap(s.calls[n]) && HalfWritten(s, n, s.calls[n]);
  }
}
