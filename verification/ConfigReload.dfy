/** Hot config reload (crates/lvqr-cli/src/config_reload.rs) as a transaction on the live state. Reading the file and
    reaching the JWKS or webhook server are parameters of each reload. */
module ConfigReload {
  import opened Bytes
  import opened Auth
  import opened StreamKeys

  datatype AuthShape = AuthShape(
    adminToken: Option<string>,
    publishKey: Option<string>,
    subscribeToken: Option<string>,
    jwtSecret: Option<string>,
    jwtIssuer: Option<string>,
    jwtAudience: Option<string>)

  datatype IceServer = IceServer(urls: seq<string>, username: Option<string>, credential: Option<string>)

  datatype ConfigFile = ConfigFile(
    auth: AuthShape,
    jwksUrl: Option<string>,
    webhookUrl: Option<string>,
    ice: seq<IceServer>,
    hmac: Option<string>)

  /** A file that sets nothing. */
  const NoFile := ConfigFile(AuthShape(None, None, None, None, None, None), None, None, [], None)

  datatype JwksBoot = JwksBoot(url: Option<string>, refreshInterval: nat, fetchTimeout: nat)

  datatype WebhookBoot = WebhookBoot(url: Option<string>, allowCacheTtl: nat, denyCacheTtl: nat, fetchTimeout: nat,
                                     cacheCapacity: nat)

  /** What is fixed at start-up: command-line defaults, tunables, build features, and the initial live values. */
  datatype Boot = Boot(
    defaults: AuthShape,
    jwks: Option<JwksBoot>,
    webhook: Option<WebhookBoot>,
    layeredStore: bool,          // stream keys enabled and a store present
    jwksFeature: bool,
    webhookFeature: bool,
    chain: Provider,
    ice: seq<IceServer>,
    hmac: Option<string>)

  /** Everything a reload may change. */
  datatype Live = Live(chain: Provider, ice: seq<IceServer>, hmac: Option<string>, jwksUrl: Option<string>,
                       webhookUrl: Option<string>)

  function Or<T>(a: Option<T>, b: Option<T>): Option<T> {
    if a.Some? then a else b
  }

  /** File values win over boot defaults, field by field. */
  function MergeWith(defaults: AuthShape, overrides: AuthShape): AuthShape {
    AuthShape(Or(overrides.adminToken, defaults.adminToken), Or(overrides.publishKey, defaults.publishKey),
              Or(overrides.subscribeToken, defaults.subscribeToken), Or(overrides.jwtSecret, defaults.jwtSecret),
              Or(overrides.jwtIssuer, defaults.jwtIssuer), Or(overrides.jwtAudience, defaults.jwtAudience))
  }

  function BootJwksUrl(boot: Boot): Option<string> {
    if boot.jwks.Some? then boot.jwks.value.url else None
  }

  function BootWebhookUrl(boot: Boot): Option<string> {
    if boot.webhook.Some? then boot.webhook.value.url else None
  }

  function NonZero(n: nat, default: nat): nat {
    if n == 0 then default else n
  }

  function StaticProvider(eff: AuthShape): Provider {
    if eff.jwtSecret.Some? then Jwt(eff.jwtSecret.value, eff.jwtIssuer, eff.jwtAudience)
    else if HasTokens(eff)
    then Static(eff.adminToken, eff.publishKey, eff.subscribeToken)
    else Noop
  }

  /** The provider the precedence cascade JWKS > webhook > JWT > static tokens > none arrives at. */
  function InnerProvider(boot: Boot, file: ConfigFile): Provider {
    var eff := MergeWith(boot.defaults, file.auth);
    var jwksUrl, webhookUrl := JwksUrl(boot, file), WebhookUrl(boot, file);
    if boot.jwksFeature && jwksUrl.Some? then
      var b := if boot.jwks.Some? then boot.jwks.value else JwksBoot(None, 0, 0);
      Jwks(jwksUrl.value, eff.jwtIssuer, eff.jwtAudience, NonZero(b.refreshInterval, 300), NonZero(b.fetchTimeout, 10))
    else if boot.webhookFeature && webhookUrl.Some? then
      var b := if boot.webhook.Some? then boot.webhook.value else WebhookBoot(None, 0, 0, 0, 0);
      Webhook(webhookUrl.value, NonZero(b.allowCacheTtl, 60), NonZero(b.denyCacheTtl, 10), NonZero(b.fetchTimeout, 5),
              NonZero(b.cacheCapacity, 4096))
    else StaticProvider(eff)
  }

  function JwksUrl(boot: Boot, file: ConfigFile): Option<string> { Or(file.jwksUrl, BootJwksUrl(boot)) }

  function WebhookUrl(boot: Boot, file: ConfigFile): Option<string> { Or(file.webhookUrl, BootWebhookUrl(boot)) }

  predicate HasTokens(eff: AuthShape) { eff.adminToken.Some? || eff.publishKey.Some? || eff.subscribeToken.Some? }

  /** A setting of the file wins; where the file has none, the one from start-up holds. */
  ghost predicate Effective(value: Option<string>, fromFile: Option<string>, default: Option<string>) {
    (fromFile.Some? ==> value == fromFile) && (fromFile.None? ==> value == default)
  }

  /** Every tunable that was not set at start-up, or set to zero, has its built-in value. */
  ghost predicate Tuned(value: nat, boot: nat, builtIn: nat) {
    (boot > 0 ==> value == boot) && (boot == 0 ==> value == builtIn)
  }

  ghost predicate EffectiveJwksUrl(boot: Boot, file: ConfigFile, url: Option<string>) {
    (boot.jwks.None? ==> Effective(url, file.jwksUrl, None))
    && (boot.jwks.Some? ==> Effective(url, file.jwksUrl, boot.jwks.value.url))
  }

  ghost predicate EffectiveWebhookUrl(boot: Boot, file: ConfigFile, url: Option<string>) {
    (boot.webhook.None? ==> Effective(url, file.webhookUrl, None))
    && (boot.webhook.Some? ==> Effective(url, file.webhookUrl, boot.webhook.value.url))
  }

  /** A strategy is available when this build has it and the file or the boot defaults name its server. */
  ghost predicate HasJwks(boot: Boot, file: ConfigFile) {
    boot.jwksFeature && (file.jwksUrl.Some? || (boot.jwks.Some? && boot.jwks.value.url.Some?))
  }

  ghost predicate HasWebhook(boot: Boot, file: ConfigFile) {
    boot.webhookFeature && (file.webhookUrl.Some? || (boot.webhook.Some? && boot.webhook.value.url.Some?))
  }

  ghost predicate HasSecret(boot: Boot, file: ConfigFile) {
    file.auth.jwtSecret.Some? || boot.defaults.jwtSecret.Some?
  }

  ghost predicate HasAnyToken(shape: AuthShape) {
    shape.adminToken != None || shape.publishKey != None || shape.subscribeToken != None
  }

  /** The precedence JWKS > webhook > JWT > static tokens > none, said of the provider: each kind is the choice just
      when it is available and nothing before it is, and each of its settings is the file's if the file has it, and
      otherwise that of start-up. */
  ghost predicate Chosen(boot: Boot, file: ConfigFile, p: Provider) {
    var f, d := file.auth, boot.defaults;
    match p
    case Jwks(url, issuer, audience, refresh, timeout) =>
      HasJwks(boot, file) && EffectiveJwksUrl(boot, file, Some(url))
      && Effective(issuer, f.jwtIssuer, d.jwtIssuer) && Effective(audience, f.jwtAudience, d.jwtAudience)
      && (boot.jwks.None? ==> refresh == 300 && timeout == 10)
      && (boot.jwks.Some? ==> Tuned(refresh, boot.jwks.value.refreshInterval, 300)
                              && Tuned(timeout, boot.jwks.value.fetchTimeout, 10))
    case Webhook(url, allow, deny, timeout, capacity) =>
      !HasJwks(boot, file) && HasWebhook(boot, file) && EffectiveWebhookUrl(boot, file, Some(url))
      && (boot.webhook.None? ==> allow == 60 && deny == 10 && timeout == 5 && capacity == 4096)
      && (boot.webhook.Some? ==> Tuned(allow, boot.webhook.value.allowCacheTtl, 60)
                                 && Tuned(deny, boot.webhook.value.denyCacheTtl, 10)
                                 && Tuned(timeout, boot.webhook.value.fetchTimeout, 5)
                                 && Tuned(capacity, boot.webhook.value.cacheCapacity, 4096))
    case Jwt(secret, issuer, audience) =>
      !HasJwks(boot, file) && !HasWebhook(boot, file) && Effective(Some(secret), f.jwtSecret, d.jwtSecret)
      && Effective(issuer, f.jwtIssuer, d.jwtIssuer) && Effective(audience, f.jwtAudience, d.jwtAudience)
    case Static(admin, publish, subscribe) =>
      !HasJwks(boot, file) && !HasWebhook(boot, file) && !HasSecret(boot, file) && (HasAnyToken(f) || HasAnyToken(d))
      && Effective(admin, f.adminToken, d.adminToken) && Effective(publish, f.publishKey, d.publishKey)
      && Effective(subscribe, f.subscribeToken, d.subscribeToken)
    case Noop =>
      !HasJwks(boot, file) && !HasWebhook(boot, file) && !HasSecret(boot, file) && !HasAnyToken(f) && !HasAnyToken(d)
    case MultiKey(_) => false
  }

  /** Exactly one provider is the choice. */
  lemma {:induction false} ChosenIff(boot: Boot, file: ConfigFile, p: Provider)
    ensures Chosen(boot, file, p) <==> p == InnerProvider(boot, file)
  {
  }

  /** The live state as a pure function of the boot values and the last good file. */
  function Derived(boot: Boot, file: Option<ConfigFile>): Live {
    match file
    case None => Live(boot.chain, boot.ice, boot.hmac, BootJwksUrl(boot), BootWebhookUrl(boot))
    case Some(f) =>
      var inner := InnerProvider(boot, f);
      Live(if boot.layeredStore then MultiKey(Some(inner)) else inner, f.ice, f.hmac,
           JwksUrl(boot, f), WebhookUrl(boot, f))
  }

  /** What a file that went through has made of the live state, setting by setting: the chosen provider, under the
      stream-key layer if there is one; the ICE list and the HMAC secret of the file, set or not; and the URLs in
      use. */
  ghost predicate Applied(boot: Boot, file: ConfigFile, live: Live) {
    (boot.layeredStore ==> live.chain.MultiKey? && live.chain.fallback.Some?
                           && Chosen(boot, file, live.chain.fallback.value))
    && (!boot.layeredStore ==> Chosen(boot, file, live.chain))
    && live.ice == file.ice && live.hmac == file.hmac
    && EffectiveJwksUrl(boot, file, live.jwksUrl) && EffectiveWebhookUrl(boot, file, live.webhookUrl)
  }

  lemma {:induction false} AppliedIff(boot: Boot, file: ConfigFile, live: Live)
    ensures Applied(boot, file, live) <==> live == Derived(boot, Some(file))
  {
    if live.chain.MultiKey? && live.chain.fallback.Some? {
      ChosenIff(boot, file, live.chain.fallback.value);
    }
    ChosenIff(boot, file, live.chain);
    hide Chosen, InnerProvider;
  }

  /** Once a file has gone through that leaves the relay to static tokens, they are what decides: each the file's, or
      where it has none the one from start-up; a request with no token set for it is open to all. Only a publish by a
      stream key of the store does not come to that. */
  lemma {:induction false} TokensDecideAfterReload(boot: Boot, file: ConfigFile, live: Live, st: Store, now: u64,
                                                   foreign: Foreign, ctx: AuthContext)
    requires Applied(boot, file, live) && Inverse(st)
    requires !HasJwks(boot, file) && !HasWebhook(boot, file) && !HasSecret(boot, file)
    requires ctx.Publish? && boot.layeredStore ==> forall id :: !Carries(st, id, ctx.key, now)
    ensures var f, d := file.auth, boot.defaults;
            Check(live.chain, st, now, foreign, ctx) == Allow <==>
              match ctx
              case Publish(_, key, _) =>
                forall due :: Effective(due, f.publishKey, d.publishKey) ==> due == None || due == Some(key)
              case Subscribe(token, _) =>
                forall due :: Effective(due, f.subscribeToken, d.subscribeToken) ==> due == None || due == token
              case Admin(bearer) =>
                forall due :: Effective(due, f.adminToken, d.adminToken) ==> due == None || due == Some(bearer)
  {
    CheckAllowsIff(live.chain, st, now, foreign, ctx);
    var p := if boot.layeredStore then live.chain.fallback.value else live.chain;
    assert Base(live.chain) == Some(p) && (p.Static? || p.Noop?);
    assert ChainAllows(live.chain, st, now, foreign, ctx) <==> BaseAllows(Some(p), foreign, ctx);
    hide Inverse, Carries, ChainAllows, Check;
  }

  /** "auth", and then exactly the categories in which two live states differ. */
  function Differences(before: Live, after: Live): seq<string> {
    ["auth"]
    + (if before.ice != after.ice then ["mesh_ice"] else [])
    + (if before.hmac != after.hmac then ["hmac_secret"] else [])
    + (if before.jwksUrl != after.jwksUrl then ["jwks"] else [])
    + (if before.webhookUrl != after.webhookUrl then ["webhook"] else [])
  }

  datatype Warning = JwksIgnored(url: string) | WebhookIgnored(url: string)

  /** A remote strategy that is configured and would be reached by the cascade, but is not built in. */
  ghost predicate Ignored(boot: Boot, jwksUrl: Option<string>, webhookUrl: Option<string>, w: Warning) {
    match w
    case JwksIgnored(url) => jwksUrl == Some(url) && !boot.jwksFeature
    case WebhookIgnored(url) => webhookUrl == Some(url) && !boot.webhookFeature && (jwksUrl.Some? ==> !boot.jwksFeature)
  }

  /** One reload attempt: what reading and parsing the file gave, and which remote-backed providers would come up. */
  datatype Attempt = Attempt(read: Option<ConfigFile>, kind: string, nowMs: u64, reachable: Provider -> bool)

  /** A reload goes through when the file parses, does not name both remote strategies, and its provider comes up.
      This depends on the boot values and the attempt only, not on earlier reloads. */
  predicate Succeeds(boot: Boot, a: Attempt) {
    a.read.Some? && !(a.read.value.jwksUrl.Some? && a.read.value.webhookUrl.Some?)
    && ComesUp(InnerProvider(boot, a.read.value), a.reachable)
  }

  predicate ComesUp(p: Provider, reachable: Provider -> bool) {
    match p
    case Jwt(secret, _, _) => secret != ""
    case Jwks(_, _, _, _, _) => reachable(p)
    case Webhook(_, _, _, _, _) => reachable(p)
    case _ => true
  }

  datatype Status = Status(lastReloadAtMs: Option<u64>, lastReloadKind: Option<string>, appliedKeys: seq<string>,
                           warnings: seq<Warning>)

  class ConfigReloadHandle {
    const boot: Boot
    const hotProvider: HotReloadAuthProvider
    var ice: seq<IceServer>
    var hmac: Option<string>
    var priorJwksUrl: Option<string>
    var priorWebhookUrl: Option<string>
    var status: Status
    ghost var lastGood: Option<ConfigFile>

    function Current(): Live
      reads this, hotProvider
    {
      Live(hotProvider.inner, ice, hmac, priorJwksUrl, priorWebhookUrl)
    }

    ghost predicate Valid()
      reads this, hotProvider
    {
      hotProvider.Valid() && Current() == Derived(boot, lastGood)
    }

    constructor (boot: Boot)
      ensures Valid() && fresh(hotProvider) && this.boot == boot && lastGood == None
      ensures hotProvider.inner == boot.chain && ice == boot.ice && hmac == boot.hmac
      ensures EffectiveJwksUrl(boot, NoFile, priorJwksUrl) && EffectiveWebhookUrl(boot, NoFile, priorWebhookUrl)
      ensures status == Status(None, None, [], [])
    {
      this.boot := boot;
      hotProvider := new HotReloadAuthProvider(boot.chain);
      ice := boot.ice;
      hmac := boot.hmac;
      priorJwksUrl := BootJwksUrl(boot);
      priorWebhookUrl := BootWebhookUrl(boot);
      status := Status(None, None, [], []);
      lastGood := None;
    }

    /** `build_inner_auth_from_effective`: the cascade, with a warning for a strategy this build lacks. */
    method BuildInner(eff: AuthShape, jwksUrl: Option<string>, webhookUrl: Option<string>, reachable: Provider -> bool,
                      ghost file: ConfigFile)
      returns (inner: Option<Provider>, warnings: seq<Warning>)
      requires eff == MergeWith(boot.defaults, file.auth)
      requires jwksUrl == JwksUrl(boot, file) && webhookUrl == WebhookUrl(boot, file)
      ensures inner.Some? ==> Chosen(boot, file, inner.value)
      ensures inner == if ComesUp(InnerProvider(boot, file), reachable) then Some(InnerProvider(boot, file)) else None
      ensures forall w :: w in warnings <==> Ignored(boot, jwksUrl, webhookUrl, w)
    {
      ChosenIff(boot, file, InnerProvider(boot, file));
      hide Chosen;
      warnings := [];
      if jwksUrl.Some? {
        if boot.jwksFeature {
          var b := if boot.jwks.Some? then boot.jwks.value else JwksBoot(None, 0, 0);
          var p := Jwks(jwksUrl.value, eff.jwtIssuer, eff.jwtAudience, NonZero(b.refreshInterval, 300),
                        NonZero(b.fetchTimeout, 10));
          inner := if reachable(p) then Some(p) else None;
          return;
        }
        warnings := warnings + [JwksIgnored(jwksUrl.value)];
      }
      if webhookUrl.Some? {
        if boot.webhookFeature {
          var b := if boot.webhook.Some? then boot.webhook.value else WebhookBoot(None, 0, 0, 0, 0);
          var p := Webhook(webhookUrl.value, NonZero(b.allowCacheTtl, 60), NonZero(b.denyCacheTtl, 10),
                           NonZero(b.fetchTimeout, 5), NonZero(b.cacheCapacity, 4096));
          inner := if reachable(p) then Some(p) else None;
          return;
        }
        warnings := warnings + [WebhookIgnored(webhookUrl.value)];
      }
      if eff.jwtSecret.Some? {
        inner := if eff.jwtSecret.value == "" then None
                 else Some(Jwt(eff.jwtSecret.value, eff.jwtIssuer, eff.jwtAudience));
      } else if eff.adminToken.Some? || eff.publishKey.Some? || eff.subscribeToken.Some? {
        inner := Some(Static(eff.adminToken, eff.publishKey, eff.subscribeToken));
      } else {
        inner := Some(Noop);
      }
    }

    static method AppliedKeys(iceChanged: bool, hmacChanged: bool, jwksChanged: bool, webhookChanged: bool,
                              ghost before: Live, ghost after: Live)
      returns (keys: seq<string>)
      requires iceChanged == (before.ice != after.ice) && hmacChanged == (before.hmac != after.hmac)
      requires jwksChanged == (before.jwksUrl != after.jwksUrl)
      requires webhookChanged == (before.webhookUrl != after.webhookUrl)
      ensures keys == Differences(before, after)
    {
      keys := ["auth"];
      if iceChanged {
        keys := keys + ["mesh_ice"];
      }
      if hmacChanged {
        keys := keys + ["hmac_secret"];
      }
      if jwksChanged {
        keys := keys + ["jwks"];
      }
      if webhookChanged {
        keys := keys + ["webhook"];
      }
    }

    /** All or nothing: a successful reload makes the file the last good one, a failed reload changes nothing. */
    method Reload(a: Attempt) returns (r: Option<Status>)
      requires Valid()
      modifies this, hotProvider
      ensures Valid()
      ensures r.Some? <==> Succeeds(boot, a)
      ensures r.Some? <==>
                a.read.Some? && (a.read.value.jwksUrl.None? || a.read.value.webhookUrl.None?)
                && forall p :: Chosen(boot, a.read.value, p) ==>
                     (p.Jwt? ==> p.secret != "") && (p.Jwks? || p.Webhook? ==> a.reachable(p))
      ensures r.Some? ==> Applied(boot, a.read.value, Current())
      ensures r.None? ==> Current() == old(Current()) && status == old(status) && lastGood == old(lastGood)
      ensures r.Some? ==> lastGood == a.read && r == Some(status)
      ensures r.Some? ==> status.appliedKeys == Differences(Derived(boot, old(lastGood)), Derived(boot, lastGood))
      ensures r.Some? ==>
                forall w :: w in status.warnings <==> Ignored(boot, Current().jwksUrl, Current().webhookUrl, w)
      ensures r.Some? ==> status.lastReloadAtMs == Some(a.nowMs) && status.lastReloadKind == Some(a.kind)
    {
      SucceedsIff(boot, a);
      if a.read.Some? {
        AppliedIff(boot, a.read.value, Derived(boot, a.read));
      }
      hide InnerProvider, MergeWith, Ignored, Differences, ComesUp, Chosen, Applied;
      if a.read.None? {
        return None;
      }
      var file := a.read.value;
      if file.jwksUrl.Some? && file.webhookUrl.Some? {
        return None;
      }
      var effective := MergeWith(boot.defaults, file.auth);
      var newJwksUrl := JwksUrl(boot, file);
      var newWebhookUrl := WebhookUrl(boot, file);
      var inner, warnings := BuildInner(effective, newJwksUrl, newWebhookUrl, a.reachable, file);
      if inner.None? {
        return None;
      }
      var newChain := if boot.layeredStore then MultiKey(inner) else inner.value;
      var iceChanged := ice != file.ice;
      var hmacChanged := hmac != file.hmac;
      var jwksChanged := priorJwksUrl != newJwksUrl;
      var webhookChanged := priorWebhookUrl != newWebhookUrl;

      hotProvider.Swap(newChain);
      ice := file.ice;
      hmac := file.hmac;

      var appliedKeys := AppliedKeys(iceChanged, hmacChanged, jwksChanged, webhookChanged,
                                     Derived(boot, lastGood), Derived(boot, a.read));
      status := Status(Some(a.nowMs), Some(a.kind), appliedKeys, warnings);
      priorJwksUrl := newJwksUrl;
      priorWebhookUrl := newWebhookUrl;
      lastGood := Some(file);
      return Some(status);
    }

    /** Any run of reloads leaves the state derived from the boot values and the last file that went through. */
    method ReloadAll(attempts: seq<Attempt>)
      requires Valid()
      modifies this, hotProvider
      ensures Valid() && lastGood == LastGood(boot, old(lastGood), attempts)
      ensures lastGood.Some? ==> Applied(boot, lastGood.value, Current())
    {
      for i := 0 to |attempts|
        invariant Valid() && lastGood == LastGood(boot, old(lastGood), attempts[..i])
      {
        var r := Reload(attempts[i]);
        assert attempts[..i + 1][..i] == attempts[..i];
      }
      assert attempts[..|attempts|] == attempts;
      if lastGood.Some? {
        AppliedIff(boot, lastGood.value, Current());
      }
    }
  }

  /** Exactly when a reload goes through, without its provider being computed. */
  lemma {:induction false} SucceedsIff(boot: Boot, a: Attempt)
    ensures Succeeds(boot, a) <==>
              a.read.Some? && (a.read.value.jwksUrl.None? || a.read.value.webhookUrl.None?)
              && forall p :: Chosen(boot, a.read.value, p) ==>
                   (p.Jwt? ==> p.secret != "") && (p.Jwks? || p.Webhook? ==> a.reachable(p))
  {
    if a.read.Some? {
      forall p ensures Chosen(boot, a.read.value, p) <==> p == InnerProvider(boot, a.read.value) {
        ChosenIff(boot, a.read.value, p);
      }
      hide Chosen, InnerProvider;
    }
  }

  /** The last good file after a run of attempts. */
  ghost function LastGood(boot: Boot, before: Option<ConfigFile>, attempts: seq<Attempt>): Option<ConfigFile> {
    if attempts == [] then before
    else
      var last := attempts[|attempts| - 1];
      if Succeeds(boot, last) then last.read else LastGood(boot, before, attempts[..|attempts| - 1])
  }

  /** It is the file of the latest attempt that succeeded, if any did. */
  lemma {:induction false} LastGoodIsLatestSuccess(boot: Boot, before: Option<ConfigFile>, attempts: seq<Attempt>)
    ensures LastGood(boot, before, attempts) == before
            || exists i :: 0 <= i < |attempts| && LatestSuccess(boot, attempts, i)
    ensures forall i :: 0 <= i < |attempts| && LatestSuccess(boot, attempts, i)
              ==> LastGood(boot, before, attempts) == attempts[i].read
    ensures (forall i :: 0 <= i < |attempts| ==> !Succeeds(boot, attempts[i])) ==>
              LastGood(boot, before, attempts) == before
  {
    if attempts != [] {
      var n := |attempts| - 1;
      if Succeeds(boot, attempts[n]) {
        assert LatestSuccess(boot, attempts, n);
      } else {
        LastGoodIsLatestSuccess(boot, before, attempts[..n]);
        forall i | 0 <= i < n
          ensures LatestSuccess(boot, attempts[..n], i) <==> LatestSuccess(boot, attempts, i)
        {
        }
      }
    }
  }

  ghost predicate LatestSuccess(boot: Boot, attempts: seq<Attempt>, i: nat)
    requires i < |attempts|
  {
    Succeeds(boot, attempts[i]) && forall j :: i < j < |attempts| ==> !Succeeds(boot, attempts[j])
  }

  /** What is reported says exactly what changed; reloading an unchanged file reports "auth" alone. */
  lemma {:induction false} DifferencesAreExact(before: Live, after: Live)
    ensures var keys := Differences(before, after);
            (forall i, j :: 0 <= i < j < |keys| ==> keys[i] != keys[j]) && keys[0] == "auth"
            && ("mesh_ice" in keys <==> before.ice != after.ice)
            && ("hmac_secret" in keys <==> before.hmac != after.hmac)
            && ("jwks" in keys <==> before.jwksUrl != after.jwksUrl)
            && ("webhook" in keys <==> before.webhookUrl != after.webhookUrl)
    ensures Differences(before, after) == ["auth"] <==> before.(chain := after.chain) == after
  {
    assert |"auth"| == 4 == |"jwks"| && |"mesh_ice"| == 8 && |"hmac_secret"| == 11 && |"webhook"| == 7;
    assert "auth"[0] == 'a' && "jwks"[0] == 'j';
  }
}
