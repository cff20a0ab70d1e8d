/** A schedule of two overlapping reloads that leaves parts of both files live. */
module ReloadOverlap {
  import opened Bytes
  import opened ConfigReload
  import opened ReloadRaces

  lemma {:induction false} RunSnoc(boot: Boot, s: State, trace: seq<(nat, Step)>, mid: State, n: nat, step: Step)
    requires Run(boot, s, trace, mid) && Enabled(mid, n, step)
    ensures Run(boot, s, trace + [(n, step)], Next(boot, mid, n, step))
    decreases |trace|
  {
    if trace == [] {
      assert [(n, step)][1..] == [];
    } else {
      RunSnoc(boot, Next(boot, s, trace[0].0, trace[0].1), trace[1..], mid, n, step);
      assert (trace + [(n, step)])[1..] == trace[1..] + [(n, step)];
    }
  }

  ghost predicate Reachable(boot: Boot, s: State) {
    exists trace :: Run(boot, Booted(boot), trace, s)
  }

  lemma OneMore(boot: Boot, s: State, n: nat, step: Step) returns (s': State)
    requires Reachable(boot, s) && Enabled(s, n, step)
    ensures s' == Next(boot, s, n, step) && Reachable(boot, s')
  {
    hide Run, Next, Enabled;
    var trace :| Run(boot, Booted(boot), trace, s);
    RunSnoc(boot, Booted(boot), trace, s, n, step);
    s' := Next(boot, s, n, step);
  }

  /** A new reload, up to and including its swap of the chain. */
  lemma SwapsChain(boot: Boot, s: State, n: nat, f: ConfigFile) returns (s': State, c: Call)
    requires Reachable(boot, s) && n !in s.files && n !in s.calls
    ensures Reachable(boot, s') && s'.files == s.files[n := f] && s'.calls == s.calls[n := c]
    ensures c.file == f && c.phase == ChainSwapped && s'.live.chain == Derived(boot, Some(f)).chain
  {
    hide Reachable, Run, Derived;
    var s1 := OneMore(boot, s, n, Build(f));
    var s2 := OneMore(boot, s1, n, ReadIce);
    var s3 := OneMore(boot, s2, n, ReadHmac);
    var s4 := OneMore(boot, s3, n, ReadUrls);
    s' := OneMore(boot, s4, n, SwapChain);
    c := s'.calls[n];
    assert s'.calls == s.calls[n := c];
  }

  /** Its remaining swaps. */
  lemma Finishes(boot: Boot, s: State, n: nat) returns (s': State)
    requires Reachable(boot, s) && n in s.calls && s.calls[n].phase == ChainSwapped
    requires n in s.files && s.files[n] == s.calls[n].file
    ensures Reachable(boot, s') && s'.calls == s.calls - {n} && s'.files == s.files
    ensures s'.live.chain == s.live.chain && s'.live.ice == s.calls[n].file.ice && s'.live.hmac == s.calls[n].file.hmac
  {
    assert Derived(boot, Some(s.calls[n].file)).ice == s.calls[n].file.ice;
    assert Derived(boot, Some(s.calls[n].file)).hmac == s.calls[n].file.hmac;
    hide Reachable, Run, Derived;
    var s1 := OneMore(boot, s, n, SwapIce);
    var s2 := OneMore(boot, s1, n, SwapHmac);
    s' := OneMore(boot, s2, n, Commit);
  }

  /** Two overlapping reloads, both returned, leave the chain of one file with the ICE list and the HMAC secret of the
      other: a live state that belongs to neither, when the files differ in both respects. */
  lemma {:induction false} OverlappingReloadsMix(boot: Boot, f: ConfigFile, g: ConfigFile)
    requires f.ice != g.ice && Derived(boot, Some(f)).chain != Derived(boot, Some(g)).chain
    ensures exists s :: Reachable(boot, s) && s.calls == map[]
                        && s.live.chain == Derived(boot, Some(g)).chain && s.live.ice == f.ice && s.live.hmac == f.hmac
                        && s.live != Derived(boot, Some(f)) && s.live != Derived(boot, Some(g))
  {
    assert Run(boot, Booted(boot), [], Booted(boot));
    assert Reachable(boot, Booted(boot));
    assert Derived(boot, Some(g)).ice == g.ice;
    hide Run, Next, Reachable, Derived;
    var s1, c0 := SwapsChain(boot, Booted(boot), 0, f);
    var s2, c1 := SwapsChain(boot, s1, 1, g);
    var s3 := Finishes(boot, s2, 1);
    var s := Finishes(boot, s3, 0);
    assert s.calls == map[];
  }
}
