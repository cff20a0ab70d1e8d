/** The auth chain: contexts, decisions, the stream-key layer over a fallback, and the hot-swappable cell
    (crates/lvqr-auth/src/provider.rs, static_provider.rs, multi_key_provider.rs, hot_reload_provider.rs). */
module Auth {
  import opened Bytes
  import opened StreamKeys
  import StreamKeyRaces

  datatype AuthContext =
    | Publish(app: string, key: string, broadcast: Option<string>)
    | Subscribe(viewerToken: Option<string>, watched: string)
    | Admin(bearer: string)

  datatype AuthDecision = Allow | Deny(reason: string)

  /** Providers by their configuration. `MultiKey` stands for the layer over the one shared stream-key store. */
  datatype Provider =
    | Noop
    | Static(adminToken: Option<string>, publishKey: Option<string>, subscribeToken: Option<string>)
    | Jwt(secret: string, issuer: Option<string>, audience: Option<string>)
    | Jwks(url: string, issuer: Option<string>, audience: Option<string>, refreshInterval: nat, fetchTimeout: nat)
    | Webhook(url: string, allowCacheTtl: nat, denyCacheTtl: nat, fetchTimeout: nat, cacheCapacity: nat)
    | MultiKey(fallback: Option<Provider>)

  /** Decisions of the providers that verify signatures or ask a server: not this model's business. */
  type Foreign = (Provider, AuthContext) -> AuthDecision

  function Gate(expected: Option<string>, presented: Option<string>, reason: string): AuthDecision {
    if expected.None? || presented == expected then Allow else Deny(reason)
  }

  function Check(p: Provider, st: Store, now: u64, foreign: Foreign, ctx: AuthContext): AuthDecision
    decreases p
  {
    match p
    case Noop => Allow
    case Static(admin, publish, subscribe) =>
      (match ctx
       case Publish(_, key, _) => Gate(publish, Some(key), "invalid publish key")
       case Subscribe(token, _) => Gate(subscribe, token, "invalid or missing subscribe token")
       case Admin(token) => Gate(admin, Some(token), "invalid admin token"))
    case MultiKey(fallback) =>
      (match ctx
       case Publish(_, key, requested) =>
         var hit := Lookup(st, key, now);
         if hit.None? then Delegate(fallback, st, now, foreign, ctx)
         else if hit.value.broadcast.None? then Allow
         else if requested.None? then Deny("stream-key requires a broadcast scope")
         else if hit.value.broadcast == requested then Allow
         else Deny("stream-key scoped to a different broadcast")
       case _ => Delegate(fallback, st, now, foreign, ctx))
    case _ => foreign(p, ctx)
  }

  function Delegate(fallback: Option<Provider>, st: Store, now: u64, foreign: Foreign, ctx: AuthContext): AuthDecision
    decreases fallback
  {
    if fallback.None? then Deny("no fallback auth provider configured")
    else Check(fallback.value, st, now, foreign, ctx)
  }

  /** A live, unexpired key of the store carries this token. */
  ghost predicate Carries(st: Store, id: Id, token: string, now: u64) {
    id in st.byId && st.byId[id].token == token && !IsExpired(st.byId[id], now)
  }

  /** ... and its scope, if it has one, is the requested broadcast. */
  ghost predicate Grants(st: Store, id: Id, token: string, requested: Option<string>, now: u64) {
    Carries(st, id, token, now) && (st.byId[id].broadcast.None? || st.byId[id].broadcast == requested)
  }

  /** Exactly when a publish passes the stream-key layer: a key of the store grants it, or no key carries the token and
      there is a fallback that allows it. Nothing else about the store or its history matters. */
  lemma {:induction false} PublishAllowedIff(fallback: Option<Provider>, st: Store, now: u64, foreign: Foreign,
                                             app: string, token: string, requested: Option<string>)
    requires Inverse(st)
    ensures var ctx := Publish(app, token, requested);
            Check(MultiKey(fallback), st, now, foreign, ctx).Allow? <==>
              (exists id :: Grants(st, id, token, requested, now))
              || ((forall id :: !Carries(st, id, token, now))
                  && fallback.Some? && Check(fallback.value, st, now, foreign, ctx).Allow?)
  {
    var hit := Lookup(st, token, now);
    forall id | Carries(st, id, token, now)
      ensures hit == Some(st.byId[id])
    {
      LookupExact(st, token, now, st.byId[id]);
    }
    if hit.Some? {
      LookupExact(st, token, now, hit.value);
      assert Carries(st, hit.value.id, token, now);
      assert Grants(st, hit.value.id, token, requested, now) <==>
               hit.value.broadcast.None? || hit.value.broadcast == requested;
      forall id | Grants(st, id, token, requested, now)
        ensures Grants(st, hit.value.id, token, requested, now)
      {
        assert Carries(st, id, token, now);
      }
    }
  }

  /** What a provider is asked in the end: the one under the stream-key layers, if there is any. */
  ghost function Base(p: Provider): Option<Provider> {
    match p
    case MultiKey(None) => None
    case MultiKey(Some(fallback)) => Base(fallback)
    case _ => Some(p)
  }

  /** What that provider allows, said of its settings: nothing where there is none, everything without a configuration,
      and with static tokens whatever has no token set for it or presents the very token that is set. */
  ghost predicate BaseAllows(base: Option<Provider>, foreign: Foreign, ctx: AuthContext) {
    match base
    case None => false
    case Some(Noop) => true
    case Some(Static(adminToken, publishKey, subscribeToken)) =>
      (match ctx
       case Publish(_, key, _) => publishKey.Some? ==> key == publishKey.value
       case Subscribe(token, _) => subscribeToken.Some? ==> token.Some? && token.value == subscribeToken.value
       case Admin(bearer) => adminToken.Some? ==> bearer == adminToken.value)
    case Some(other) => foreign(other, ctx) == Allow
  }

  /** What a whole chain allows: a publish through a stream-key layer by a key that grants it, or with no key by what
      is under the layers; anything else by what is under them alone. */
  ghost predicate ChainAllows(p: Provider, st: Store, now: u64, foreign: Foreign, ctx: AuthContext) {
    if p.MultiKey? && ctx.Publish? then
      (exists id :: Grants(st, id, ctx.key, ctx.broadcast, now))
      || ((forall id :: !Carries(st, id, ctx.key, now)) && BaseAllows(Base(p), foreign, ctx))
    else BaseAllows(Base(p), foreign, ctx)
  }

  /** Every chain, however its layers are nested, decides by the settings at its bottom and the keys of the store. A
      layer without a fallback denies whatever no key grants. */
  lemma {:induction false} CheckAllowsIff(p: Provider, st: Store, now: u64, foreign: Foreign, ctx: AuthContext)
    requires Inverse(st)
    ensures Check(p, st, now, foreign, ctx) == Allow <==> ChainAllows(p, st, now, foreign, ctx)
    decreases p
  {
    if p.MultiKey? {
      if ctx.Publish? {
        PublishAllowedIff(p.fallback, st, now, foreign, ctx.app, ctx.key, ctx.broadcast);
      }
      if p.fallback.Some? {
        CheckAllowsIff(p.fallback.value, st, now, foreign, ctx);
      }
      hide Inverse;
    }
  }

  /** A static provider by itself: what it denies, and how it says so. */
  lemma StaticDenials(admin: Option<string>, publish: Option<string>, subscribe: Option<string>, st: Store, now: u64,
                      foreign: Foreign, ctx: AuthContext)
    ensures var d := Check(Static(admin, publish, subscribe), st, now, foreign, ctx);
            d.Deny? ==> d.reason == if ctx.Publish? then "invalid publish key"
                                    else if ctx.Subscribe? then "invalid or missing subscribe token"
                                    else "invalid admin token"
    ensures var d := Check(Static(admin, publish, subscribe), st, now, foreign, ctx);
            d.Deny? <==> match ctx
              case Publish(_, key, _) => publish.Some? && publish.value != key
              case Subscribe(token, _) => subscribe.Some? && (token.None? || token.value != subscribe.value)
              case Admin(bearer) => admin.Some? && admin.value != bearer
  {
  }

  /** The new token of a rotation opens what the old one did and nothing else, through any later operations on other
      keys and under every fallback: without an override it keeps scope and expiry, and with one it has the override's.
      Once expired, it is for the fallback to decide. */
  lemma {:induction false} RotatedTokenPublishesIff(st: Store, id: Id, token: Token, override: Option<StreamKeySpec>,
                                                    now: u64, ops: seq<Op>, later: u64, app: string,
                                                    requested: Option<string>)
    requires Inverse(st) && id in st.byId && token !in st.byToken
    requires var after := After(st, Rotate(id, token, override, now)); FreshRun(after, ops) && Spares(ops, id)
    ensures var was, end := st.byId[id], AfterAll(After(st, Rotate(id, token, override, now)), ops);
            var ctx := Publish(app, token, requested);
            var scope := if override.None? then was.broadcast else override.value.broadcast;
            var expired := if override.None? then was.expiresAt.Some? && was.expiresAt.value <= later
                           else ExpiredBy(override.value.ttlSeconds, now, later);
            forall fallback, foreign ::
              if expired then Check(MultiKey(fallback), end, later, foreign, ctx)
                              == Delegate(fallback, end, later, foreign, ctx)
              else Check(MultiKey(fallback), end, later, foreign, ctx) == Allow <==>
                     (scope.None? || scope == requested)
  {
    RotatedKeyHitsIff(st, id, token, override, now, ops, later);
    hide Inverse, FreshRun, AfterAll, After, Lookup, Delegate, ExpiredBy;
  }

  /** ... and a minted token opens what its spec says, until its TTL has passed. */
  lemma {:induction false} MintedTokenPublishesIff(st: Store, id: Id, token: Token, spec: StreamKeySpec, now: u64,
                                                   ops: seq<Op>, later: u64, app: string, requested: Option<string>)
    requires Inverse(st) && id !in st.byId && token !in st.byToken
    requires var after := After(st, Mint(MintedKey(id, token, spec, now))); FreshRun(after, ops) && Spares(ops, id)
    ensures var end := AfterAll(After(st, Mint(MintedKey(id, token, spec, now))), ops);
            var ctx := Publish(app, token, requested);
            forall fallback, foreign ::
              if ExpiredBy(spec.ttlSeconds, now, later)
              then Check(MultiKey(fallback), end, later, foreign, ctx) == Delegate(fallback, end, later, foreign, ctx)
              else Check(MultiKey(fallback), end, later, foreign, ctx) == Allow <==>
                     (spec.broadcast.None? || spec.broadcast == requested)
  {
    MintedKeyHitsIff(st, id, token, spec, now, ops, later);
    hide Inverse, FreshRun, AfterAll, After, Lookup, Delegate, ExpiredBy;
  }

  /** A key scoped to another broadcast denies, under every fallback: swapping the fallback never widens it. */
  lemma {:induction false} ScopeMismatchDenies(st: Store, id: Id, now: u64, app: string, token: string,
                                               requested: Option<string>)
    requires Inverse(st) && Carries(st, id, token, now) && !Grants(st, id, token, requested, now)
    ensures forall fallback, foreign ::
              Check(MultiKey(fallback), st, now, foreign, Publish(app, token, requested))
              == Deny(if requested.None? then "stream-key requires a broadcast scope"
                      else "stream-key scoped to a different broadcast")
  {
    LookupExact(st, token, now, st.byId[id]);
  }

  /** Without a fallback the layer denies whatever no key of the store carries the token for: every publish with another
      token, every subscribe, and every admin request. */
  lemma {:induction false} NoFallbackDenies(st: Store, now: u64, foreign: Foreign, ctx: AuthContext)
    requires Inverse(st) && (ctx.Publish? ==> forall id :: !Carries(st, id, ctx.key, now))
    ensures Check(MultiKey(None), st, now, foreign, ctx) == Deny("no fallback auth provider configured")
  {
    if ctx.Publish? {
      var hit := Lookup(st, ctx.key, now);
      if hit.Some? {
        LookupExact(st, ctx.key, now, hit.value);
        assert Carries(st, hit.value.id, ctx.key, now);
        assert false;
      }
    }
  }

  /** Once its key is revoked, or its token rotated away, a token is decided by the fallback alone, through whatever
      operations follow, unless one of them generates that very token again. */
  lemma {:induction false} OldTokenIsFallbackOnly(fallback: Option<Provider>, st: Store, id: Id, op: Op, ops: seq<Op>,
                                                  later: u64, foreign: Foreign, app: string,
                                                  requested: Option<string>)
    requires Inverse(st) && id in st.byId && FreshFor(st, op) && (op.Revoke? || op.Rotate?) && op.id == id
    requires forall i :: 0 <= i < |ops| ==> !Issues(ops[i], st.byId[id].token)
    ensures var ctx := Publish(app, st.byId[id].token, requested);
            var now := AfterAll(After(st, op), ops);
            Check(MultiKey(fallback), now, later, foreign, ctx) == Delegate(fallback, now, later, foreign, ctx)
  {
    UnissuedStaysOut(After(st, op), ops, st.byId[id].token);
  }

  /** On concurrent runs too: when calls on each id do not overlap, a token that is no longer its key's, revoked or
      replaced, is decided by the fallback alone as soon as no call is on that id, whatever calls on other ids are half
      done. */
  lemma {:induction false} OldTokenIsFallbackOnlyOnRuns(fallback: Option<Provider>,
                                                        trace: seq<(StreamKeyRaces.ThreadId, StreamKeyRaces.Step)>,
                                                        s: StreamKeyRaces.State, token: Token, later: u64,
                                                        foreign: Foreign, app: string, requested: Option<string>)
    requires StreamKeyRaces.SerialRun(StreamKeyRaces.Init, trace, s)
    requires token in s.issued && StreamKeyRaces.Untouched(s, s.issued[token])
    requires s.issued[token] in s.byId ==> s.byId[s.issued[token]].token != token
    ensures var ctx, st := Publish(app, token, requested), Store(s.byId, s.byToken);
            Check(MultiKey(fallback), st, later, foreign, ctx) == Delegate(fallback, st, later, foreign, ctx)
  {
    StreamKeyRaces.SerialIdIsExact(trace, s, token);
  }

  /** On every run at all, a token that is no longer its key's is decided by the fallback alone exactly unless it is a
      stale hit, which only a missed or a pending removal can make it. */
  lemma {:induction false} OldTokenDecidedIff(fallback: Option<Provider>,
                                              trace: seq<(StreamKeyRaces.ThreadId, StreamKeyRaces.Step)>,
                                              s: StreamKeyRaces.State, token: Token, later: u64)
    requires StreamKeyRaces.Run(StreamKeyRaces.Init, trace, s)
    requires token in s.issued && (s.issued[token] in s.byId ==> s.byId[s.issued[token]].token != token)
    ensures Lookup(Store(s.byId, s.byToken), token, later).Some? <==> StreamKeyRaces.StaleHit(s, token, later)
    ensures StreamKeyRaces.StaleHit(s, token, later) ==>
              StreamKeyRaces.PendingRemoval(s, token) || token in s.missed
    ensures !StreamKeyRaces.StaleHit(s, token, later) ==>
              forall app, requested, foreign ::
                var ctx, st := Publish(app, token, requested), Store(s.byId, s.byToken);
                Check(MultiKey(fallback), st, later, foreign, ctx) == Delegate(fallback, st, later, foreign, ctx)
  {
    StreamKeyRaces.InitInv();
    StreamKeyRaces.RunKeepsInv(StreamKeyRaces.Init, trace, s);
    StreamKeyRaces.StaleHitIff(trace, s, token, later);
    hide StreamKeyRaces.TokenAccounted, StreamKeyRaces.Run;
  }

  /** Subscribe and admin decisions do not depend on the store at all. */
  lemma {:induction false} StoreDecidesOnlyPublish(p: Provider, a: Store, b: Store, now: u64, later: u64,
                                                   foreign: Foreign, ctx: AuthContext)
    requires !ctx.Publish?
    ensures Check(p, a, now, foreign, ctx) == Check(p, b, later, foreign, ctx)
    decreases p
  {
    if p.MultiKey? && p.fallback.Some? {
      StoreDecidesOnlyPublish(p.fallback.value, a, b, now, later, foreign, ctx);
    }
  }

  // ---------------------------------------------------------------- the hot-swap cell

  /** The cell, and the provider each check in flight has loaded from it. */
  datatype Cell = Cell(inner: Provider, loaded: map<nat, Provider>)

  /** A check loads the provider and then asks it; swaps come in between. The store and the clock are those at the time
      the provider is asked. */
  datatype CellStep =
    | Load(check: nat)
    | Swap(next: Provider)
    | Decide(check: nat, st: Store, now: u64, ctx: AuthContext)

  predicate CellEnabled(c: Cell, step: CellStep) {
    match step
    case Load(check) => check !in c.loaded
    case Swap(_) => true
    case Decide(check, _, _, _) => check in c.loaded
  }

  function CellNext(c: Cell, step: CellStep): Cell {
    match step
    case Load(check) => c.(loaded := c.loaded[check := c.inner])
    case Swap(next) => c.(inner := next)
    case Decide(check, _, _, _) => c.(loaded := c.loaded - {check})
  }

  function CellAfter(initial: Provider, trace: seq<CellStep>): Cell {
    if trace == [] then Cell(initial, map[])
    else CellNext(CellAfter(initial, trace[..|trace| - 1]), trace[|trace| - 1])
  }

  predicate CellRun(initial: Provider, trace: seq<CellStep>) {
    trace == [] || (CellRun(initial, trace[..|trace| - 1])
                    && CellEnabled(CellAfter(initial, trace[..|trace| - 1]), trace[|trace| - 1]))
  }

  /** The decision of the last step of a run. */
  function Decision(initial: Provider, trace: seq<CellStep>, foreign: Foreign): AuthDecision
    requires trace != [] && CellRun(initial, trace) && trace[|trace| - 1].Decide?
  {
    var step := trace[|trace| - 1];
    Check(CellAfter(initial, trace[..|trace| - 1]).loaded[step.check], step.st, step.now, foreign, step.ctx)
  }

  ghost predicate LastSwapAt(trace: seq<CellStep>, p: Provider, i: nat) {
    i < |trace| && trace[i] == Swap(p) && forall j :: i < j < |trace| ==> !trace[j].Swap?
  }

  /** The provider of the latest swap, or the initial one. */
  ghost predicate LatestSwap(initial: Provider, trace: seq<CellStep>, p: Provider) {
    (p == initial && forall i :: 0 <= i < |trace| ==> !trace[i].Swap?) || exists i :: LastSwapAt(trace, p, i)
  }

  /** The check's latest load was step `i`. */
  ghost predicate LoadedAt(trace: seq<CellStep>, check: nat, i: nat) {
    i < |trace| && trace[i] == Load(check) && forall j :: i < j < |trace| ==> trace[j] != Load(check)
  }

  lemma {:induction false} CellHoldsLatestSwap(initial: Provider, trace: seq<CellStep>)
    ensures LatestSwap(initial, trace, CellAfter(initial, trace).inner)
  {
    if trace != [] {
      var n := |trace| - 1;
      CellHoldsLatestSwap(initial, trace[..n]);
      var p := CellAfter(initial, trace[..n]).inner;
      if trace[n].Swap? {
        assert LastSwapAt(trace, trace[n].next, n);
      } else if i :| LastSwapAt(trace[..n], p, i) {
        assert LastSwapAt(trace, p, i);
      }
    }
  }

  lemma LatestSwapUnique(initial: Provider, trace: seq<CellStep>, p: Provider, q: Provider)
    requires LatestSwap(initial, trace, p) && LatestSwap(initial, trace, q)
    ensures p == q
  {
    if i, j :| LastSwapAt(trace, p, i) && LastSwapAt(trace, q, j) {
      assert i == j;
    }
  }

  lemma {:induction false} LoadedFromCell(initial: Provider, trace: seq<CellStep>, check: nat) returns (i: nat)
    requires CellRun(initial, trace) && check in CellAfter(initial, trace).loaded
    ensures LoadedAt(trace, check, i)
    ensures CellAfter(initial, trace).loaded[check] == CellAfter(initial, trace[..i]).inner
  {
    var n := |trace| - 1;
    if trace[n] == Load(check) {
      i := n;
    } else {
      i := LoadedFromCell(initial, trace[..n], check);
      assert trace[..n][..i] == trace[..i];
    }
  }

  /** Every check is decided by the provider swapped in last before it loaded, whatever is swapped in afterwards. */
  lemma {:induction false} DecidedAsLoaded(initial: Provider, trace: seq<CellStep>, foreign: Foreign)
    returns (i: nat, p: Provider)
    requires trace != [] && CellRun(initial, trace) && trace[|trace| - 1].Decide?
    ensures var step := trace[|trace| - 1];
            LoadedAt(trace, step.check, i) && LatestSwap(initial, trace[..i], p)
            && Decision(initial, trace, foreign) == Check(p, step.st, step.now, foreign, step.ctx)
  {
    var n := |trace| - 1;
    i := LoadedFromCell(initial, trace[..n], trace[n].check);
    assert trace[..n][..i] == trace[..i];
    CellHoldsLatestSwap(initial, trace[..i]);
    p := CellAfter(initial, trace[..i]).inner;
  }

  /** On every run whose swaps keep the layer over the store, a publish with a key scoped to another broadcast is
      denied, whatever the fallbacks. */
  lemma {:induction false} ScopeMismatchDeniesOnEveryRun(initial: Provider, trace: seq<CellStep>, foreign: Foreign,
                                                         id: Id)
    requires initial.MultiKey? && forall i :: 0 <= i < |trace| && trace[i].Swap? ==> trace[i].next.MultiKey?
    requires trace != [] && CellRun(initial, trace) && trace[|trace| - 1].Decide?
    requires var step := trace[|trace| - 1];
             step.ctx.Publish? && Inverse(step.st) && Carries(step.st, id, step.ctx.key, step.now)
             && !Grants(step.st, id, step.ctx.key, step.ctx.broadcast, step.now)
    ensures Decision(initial, trace, foreign).Deny?
  {
    var step := trace[|trace| - 1];
    var i, p := DecidedAsLoaded(initial, trace, foreign);
    assert p.MultiKey? by {
      if p != initial {
        var j: nat :| LastSwapAt(trace[..i], p, j);
        assert trace[j] == Swap(p);
      }
    }
    ScopeMismatchDenies(step.st, id, step.now, step.ctx.app, step.ctx.key, step.ctx.broadcast);
  }

  /** The cell as an object; `trace` remembers its swaps. */
  class HotReloadAuthProvider {
    var inner: Provider
    ghost const initial: Provider
    ghost var trace: seq<CellStep>

    ghost predicate Valid()
      reads this
    {
      CellRun(initial, trace) && CellAfter(initial, trace) == Cell(inner, map[])
    }

    constructor (initial: Provider)
      ensures Valid() && inner == initial == this.initial && trace == []
    {
      inner := initial;
      this.initial := initial;
      trace := [];
    }

    method Swap(newInner: Provider)
      requires Valid()
      modifies this
      ensures Valid() && inner == newInner && trace == old(trace) + [CellStep.Swap(newInner)]
    {
      inner := newInner;
      trace := trace + [CellStep.Swap(newInner)];
      assert trace[..|trace| - 1] == old(trace);
    }

    /** A check that nothing interrupts is decided by the provider swapped in last (there is one, and only one): by the
        keys of the store and the settings at the bottom of its chain. */
    method CheckCurrent(st: Store, now: u64, foreign: Foreign, ctx: AuthContext) returns (d: AuthDecision)
      requires Valid()
      ensures forall p :: LatestSwap(initial, trace, p) ==> d == Check(p, st, now, foreign, ctx)
      ensures forall p :: LatestSwap(initial, trace, p) && Inverse(st) ==>
                (d == Allow <==> ChainAllows(p, st, now, foreign, ctx))
      ensures forall p :: LatestSwap(initial, trace, p) && p.Static? ==>
                (d == Allow <==>
                   match ctx
                   case Publish(_, key, _) => p.publishKey.None? || p.publishKey.value == key
                   case Subscribe(token, _) => p.subscribeToken.None? || token == Some(p.subscribeToken.value)
                   case Admin(bearer) => p.adminToken.None? || p.adminToken.value == bearer)
    {
      if Inverse(st) {
        CheckAllowsIff(inner, st, now, foreign, ctx);
      }
      CellHoldsLatestSwap(initial, trace);
      forall p | LatestSwap(initial, trace, p) ensures p == inner {
        LatestSwapUnique(initial, trace, p, inner);
      }
      d := Check(inner, st, now, foreign, ctx);
    }
  }
}
