/** The webhook decision cache and its fetcher (crates/lvqr-auth/src/webhook_provider.rs): a producer/consumer protocol
    over a pending map, a one-permit notifier and a bounded cache with per-entry expiry. */
module Webhook {
  import opened Bytes
  import opened Auth

  datatype Config = Config(allowTtl: nat, denyTtl: nat, capacity: nat)

  /** `validate_config` and the non-zero capacity. */
  predicate ValidConfig(c: Config) {
    c.allowTtl > 0 && c.denyTtl > 0 && c.capacity > 0
  }

  datatype CacheKey =
    | PublishKey(app: string, key: string, broadcast: Option<string>)
    | SubscribeKey(token: Option<string>, watched: string)
    | AdminKey(bearer: string)

  function KeyOf(ctx: AuthContext): CacheKey {
    match ctx
    case Publish(app, key, broadcast) => PublishKey(app, key, broadcast)
    case Subscribe(token, watched) => SubscribeKey(token, watched)
    case Admin(bearer) => AdminKey(bearer)
  }

  datatype Entry = Entry(decision: AuthDecision, expiresAt: nat)

  function Ttl(c: Config, d: AuthDecision): nat {
    if d.Allow? then c.allowTtl else c.denyTtl
  }

  /** The entry is that answer, given at that time: an allow is held for the allow TTL, a deny for the deny TTL. */
  ghost predicate Holds(c: Config, e: Entry, d: AuthDecision, at: nat) {
    e.decision == d && (d == Allow ==> e.expiresAt == at + c.allowTtl) && (d.Deny? ==> e.expiresAt == at + c.denyTtl)
  }

  // ---------------------------------------------------------------- eviction

  ghost predicate LeastExpiry(cache: map<CacheKey, Entry>, k: CacheKey) {
    k in cache && forall j :: j in cache ==> cache[k].expiresAt <= cache[j].expiresAt
  }

  /** Below capacity nothing happens, otherwise one entry of least expiry goes. */
  ghost predicate Evicted(cache: map<CacheKey, Entry>, cap: nat, after: map<CacheKey, Entry>) {
    if |cache| < cap || cache == map[] then after == cache
    else exists k :: LeastExpiry(cache, k) && after == cache - {k}
  }

  /** A cache within its capacity has room for one more after eviction. */
  lemma EvictionMakesRoom(cache: map<CacheKey, Entry>, cap: nat, after: map<CacheKey, Entry>, k: CacheKey, e: Entry)
    requires 0 < cap && |cache| <= cap && Evicted(cache, cap, after)
    ensures |after[k := e]| <= cap
  {
    assert after[k := e].Keys == after.Keys + {k};
    if |cache| >= cap {
      var k0 :| LeastExpiry(cache, k0) && after == cache - {k0};
      assert after.Keys == cache.Keys - {k0};
    }
  }

  /** `evict_if_full`. */
  method EvictIfFull(cache: map<CacheKey, Entry>, cap: nat) returns (after: map<CacheKey, Entry>)
    ensures Evicted(cache, cap, after)
  {
    if |cache| < cap || cache == map[] {
      return cache;
    }
    var oldest :| oldest in cache;
    var rest := cache.Keys - {oldest};
    while rest != {}
      invariant rest <= cache.Keys && oldest in cache
      invariant forall j :: j in cache && j !in rest ==> cache[oldest].expiresAt <= cache[j].expiresAt
      decreases rest
    {
      var k :| k in rest;
      if cache[k].expiresAt < cache[oldest].expiresAt {
        oldest := k;
      }
      rest := rest - {k};
    }
    after := cache - {oldest};
    assert LeastExpiry(cache, oldest);
  }

  ghost predicate NoDuplicates(keys: seq<CacheKey>) {
    forall i, j :: 0 <= i < j < |keys| ==> keys[i] != keys[j]
  }

  // ---------------------------------------------------------------- check and one batch, uninterrupted

  class SharedState {
    const config: Config
    var cache: map<CacheKey, Entry>
    var pending: map<CacheKey, AuthContext>

    constructor (config: Config)
      ensures this.config == config && cache == map[] && pending == map[]
    {
      this.config := config;
      cache := map[];
      pending := map[];
    }

    /** A fresh entry decides; otherwise the context is filed once and the answer is a deny for now. */
    method CheckContext(ctx: AuthContext, now: nat) returns (d: AuthDecision, notify: bool)
      modifies this`pending
      ensures !notify <==> KeyOf(ctx) in cache && cache[KeyOf(ctx)].expiresAt > now
      ensures !notify ==> d == cache[KeyOf(ctx)].decision && pending == old(pending)
      ensures notify ==> d.Deny?
      ensures notify ==> pending == if KeyOf(ctx) in old(pending) then old(pending) else old(pending)[KeyOf(ctx) := ctx]
    {
      var key := KeyOf(ctx);
      if key in cache {
        if cache[key].expiresAt > now {
          return cache[key].decision, false;
        }
      }
      if key !in pending {
        pending := pending[key := ctx];
      }
      return Deny("webhook cache miss; decision pending"), true;
    }

    /** The fetcher's inner loop: one POST per key of the batch, in any order; `respond` is the endpoint and `clock`
        the time at which each call came back. */
    method ProcessBatch(batch: map<CacheKey, AuthContext>, respond: AuthContext -> AuthDecision, clock: nat -> nat)
      returns (posts: seq<CacheKey>)
      requires ValidConfig(config) && |cache| <= config.capacity
      modifies this`cache
      ensures NoDuplicates(posts) && forall k :: k in posts <==> k in batch
      ensures |cache| <= config.capacity
      ensures AnsweredFrom(config, old(cache), cache, batch, posts, respond, clock)
      ensures posts != [] ==> var last := posts[|posts| - 1];
                last in cache && Holds(config, cache[last], respond(batch[last]), clock(|posts| - 1))
    {
      posts := [];
      var rest := batch.Keys;
      assert Progress(config, cache, cache, batch, rest, posts, respond, clock);
      hide Progress, Evicted, AnswerEntry, Holds;
      while rest != {}
        invariant rest <= batch.Keys && Progress(config, old(cache), cache, batch, rest, posts, respond, clock)
        decreases rest
      {
        var key :| key in rest;
        var entry := AnswerEntry(config, respond(batch[key]), clock(|posts|));
        var room := EvictIfFull(cache, config.capacity);
        OnePost(config, old(cache), cache, room, batch, rest, posts, key, respond, clock);
        rest := rest - {key};
        posts := posts + [key];
        cache := room[key := entry];
      }
      BatchDone(config, old(cache), cache, batch, posts, respond, clock);
    }
  }

  /** Part of the batch is posted, each key once, `rest` is still to come, and the cache is bounded, holds what it did
      or what was answered, and the latest answer. */
  ghost predicate Progress(c: Config, before: map<CacheKey, Entry>, now: map<CacheKey, Entry>,
                           batch: map<CacheKey, AuthContext>, rest: set<CacheKey>, posts: seq<CacheKey>,
                           respond: AuthContext -> AuthDecision, clock: nat -> nat)
  {
    NoDuplicates(posts) && (forall k :: k in posts <==> k in batch && k !in rest)
    && |now| <= c.capacity && AnsweredFrom(c, before, now, batch, posts, respond, clock)
    && (posts != [] ==> var last := posts[|posts| - 1];
          last in now && last in batch && Holds(c, now[last], respond(batch[last]), clock(|posts| - 1)))
  }

  lemma OnePost(c: Config, before: map<CacheKey, Entry>, now: map<CacheKey, Entry>, room: map<CacheKey, Entry>,
                batch: map<CacheKey, AuthContext>, rest: set<CacheKey>, posts: seq<CacheKey>, key: CacheKey,
                respond: AuthContext -> AuthDecision, clock: nat -> nat)
    requires ValidConfig(c) && Progress(c, before, now, batch, rest, posts, respond, clock)
    requires key in rest && rest <= batch.Keys && Evicted(now, c.capacity, room)
    ensures Progress(c, before, room[key := AnswerEntry(c, respond(batch[key]), clock(|posts|))], batch, rest - {key},
                     posts + [key], respond, clock)
  {
    hide AnsweredFrom, NoDuplicates, Evicted, AnswerEntry, Holds;
    var entry := AnswerEntry(c, respond(batch[key]), clock(|posts|));
    EvictionMakesRoom(now, c.capacity, room, key, entry);
    StoreKeepsOrigins(c, before, now, room, batch, posts, key, respond, clock);
    OneMorePost(posts, key);
    AnswerHolds(c, respond(batch[key]), clock(|posts|));
    hide ValidConfig;
    assert forall k :: k in posts + [key] <==> k in batch && k !in rest - {key};
    assert (posts + [key])[|posts|] == key && |posts + [key]| - 1 == |posts|;
  }

  lemma BatchDone(c: Config, before: map<CacheKey, Entry>, now: map<CacheKey, Entry>,
                  batch: map<CacheKey, AuthContext>, posts: seq<CacheKey>,
                  respond: AuthContext -> AuthDecision, clock: nat -> nat)
    requires Progress(c, before, now, batch, {}, posts, respond, clock)
    ensures NoDuplicates(posts) && (forall k :: k in posts <==> k in batch) && |now| <= c.capacity
    ensures AnsweredFrom(c, before, now, batch, posts, respond, clock)
    ensures posts != [] ==> var last := posts[|posts| - 1];
              last in now && Holds(c, now[last], respond(batch[last]), clock(|posts| - 1))
  {
    hide AnsweredFrom, NoDuplicates, Holds;
  }

  lemma OneMorePost(posts: seq<CacheKey>, key: CacheKey)
    requires NoDuplicates(posts) && key !in posts
    ensures NoDuplicates(posts + [key]) && forall k :: k in posts + [key] <==> k in posts || k == key
  {
  }

  /** Every entry of `now` was there before, or is the answer to one of the posts, stamped with its return time. */
  ghost predicate AnsweredFrom(c: Config, before: map<CacheKey, Entry>, now: map<CacheKey, Entry>,
                               batch: map<CacheKey, AuthContext>, posts: seq<CacheKey>,
                               respond: AuthContext -> AuthDecision, clock: nat -> nat)
  {
    (forall k :: k in posts ==> k in batch)
    && forall k :: k in now ==>
         (k in before && now[k] == before[k]) || Posted(c, k, now[k], batch, posts, respond, clock)
  }

  ghost predicate Posted(c: Config, k: CacheKey, e: Entry, batch: map<CacheKey, AuthContext>, posts: seq<CacheKey>,
                         respond: AuthContext -> AuthDecision, clock: nat -> nat)
  {
    k in batch && exists i: nat :: i < |posts| && posts[i] == k && Holds(c, e, respond(batch[k]), clock(i))
  }

  lemma StoreKeepsOrigins(c: Config, before: map<CacheKey, Entry>, now: map<CacheKey, Entry>,
                          room: map<CacheKey, Entry>, batch: map<CacheKey, AuthContext>, posts: seq<CacheKey>,
                          key: CacheKey, respond: AuthContext -> AuthDecision, clock: nat -> nat)
    requires AnsweredFrom(c, before, now, batch, posts, respond, clock)
    requires key in batch && Evicted(now, c.capacity, room)
    ensures var entry := AnswerEntry(c, respond(batch[key]), clock(|posts|));
            AnsweredFrom(c, before, room[key := entry], batch, posts + [key], respond, clock)
  {
    var posts' := posts + [key];
    assert posts'[|posts|] == key;
    forall k, e | Posted(c, k, e, batch, posts, respond, clock)
      ensures Posted(c, k, e, batch, posts', respond, clock)
    {
      var i: nat :| i < |posts| && posts[i] == k && Holds(c, e, respond(batch[k]), clock(i));
      assert posts'[i] == k;
    }
    assert forall k :: k in room ==> k in now && room[k] == now[k];
  }

  function AnswerEntry(c: Config, d: AuthDecision, at: nat): Entry {
    Entry(d, at + Ttl(c, d))
  }

  lemma AnswerHolds(c: Config, d: AuthDecision, at: nat)
    ensures Holds(c, AnswerEntry(c, d, at), d, at)
  {
  }

  // ---------------------------------------------------------------- the protocol

  type CheckerId = nat

  /** A checker has read the clock and is to look into the cache; or it missed and is to enqueue; or it has enqueued
      and is to notify. */
  datatype Checker = Asking(ctx: AuthContext, asked: nat) | Missed(ctx: AuthContext) | Enqueued

  /** The fetcher waits on the notifier, is about to take the pending map, or works through a batch: for each entry it
      posts, and then stores the answer. */
  datatype Fetcher =
    | Parked
    | Woken
    | Posting(batch: map<CacheKey, AuthContext>)
    | Storing(key: CacheKey, entry: Entry, batch: map<CacheKey, AuthContext>)

  /** One completed POST: the context asked about, the outcome (a failed call is a deny), and when it came back. */
  datatype Answer = Answer(ctx: AuthContext, decision: AuthDecision, at: nat)

  /** The shared state, with a history: every answer of the endpoint, the batch last taken, the keys posted from it so
      far, and every key ever enqueued. */
  datatype State = State(
    cache: map<CacheKey, Entry>,
    pending: map<CacheKey, AuthContext>,
    permit: bool,
    fetcher: Fetcher,
    checkers: map<CheckerId, Checker>,
    now: nat,
    answers: set<Answer>,
    taken: set<CacheKey>,
    posted: seq<CacheKey>,
    requested: set<CacheKey>)

  const Init := State(map[], map[], false, Parked, map[], 0, {}, {}, [], {})

  datatype Step =
    | Tick
    | ReadClock(id: CheckerId, ctx: AuthContext)
    | LookUp(id: CheckerId)                           // returns on a fresh entry, and goes on to enqueue without
    | Enqueue(id: CheckerId)
    | NotifyOne(id: CheckerId)
    | Take
    | Post(key: CacheKey, decision: AuthDecision)
    | Store(evicted: map<CacheKey, Entry>)            // the cache as `EvictIfFull` left it
    | Finish                                          // end of batch, back to the notifier

  /** An entry that decides a check whose clock read `at`. */
  ghost predicate Fresh(s: State, k: CacheKey, at: nat) {
    k in s.cache && s.cache[k].expiresAt > at
  }

  ghost predicate Enabled(c: Config, s: State, step: Step) {
    match step
    case Tick => true
    case ReadClock(id, _) => id !in s.checkers
    case LookUp(id) => id in s.checkers && s.checkers[id].Asking?
    case Enqueue(id) => id in s.checkers && s.checkers[id].Missed?
    case NotifyOne(id) => id in s.checkers && s.checkers[id].Enqueued?
    case Take => s.fetcher.Woken?
    case Post(key, _) => s.fetcher.Posting? && key in s.fetcher.batch
    case Store(evicted) => s.fetcher.Storing? && Evicted(s.cache, c.capacity, evicted)
    case Finish => s.fetcher.Posting? && s.fetcher.batch == map[]
  }

  ghost function Next(c: Config, s: State, step: Step): State
    requires Enabled(c, s, step)
  {
    match step
    case Tick => s.(now := s.now + 1)
    case ReadClock(id, ctx) => s.(checkers := s.checkers[id := Asking(ctx, s.now)])
    case LookUp(id) =>
      var c := s.checkers[id];
      if Fresh(s, KeyOf(c.ctx), c.asked) then s.(checkers := s.checkers - {id})
      else s.(checkers := s.checkers[id := Missed(c.ctx)])
    case Enqueue(id) =>
      var ctx := s.checkers[id].ctx;
      s.(pending := if KeyOf(ctx) in s.pending then s.pending else s.pending[KeyOf(ctx) := ctx],
         checkers := s.checkers[id := Enqueued], requested := s.requested + {KeyOf(ctx)})
    case NotifyOne(id) =>
      // A waiting fetcher is woken; otherwise the one permit is stored.
      if s.fetcher.Parked? then s.(fetcher := Woken, checkers := s.checkers - {id})
      else s.(permit := true, checkers := s.checkers - {id})
    case Take =>
      s.(pending := map[], fetcher := Posting(s.pending), taken := s.pending.Keys, posted := [])
    case Post(key, decision) =>
      var ctx := s.fetcher.batch[key];
      s.(fetcher := Storing(key, AnswerEntry(c, decision, s.now), s.fetcher.batch - {key}),
         answers := s.answers + {Answer(ctx, decision, s.now)}, posted := s.posted + [key])
    case Store(evicted) =>
      s.(cache := evicted[s.fetcher.key := s.fetcher.entry], fetcher := Posting(s.fetcher.batch))
    case Finish =>
      // `notified().await`: a stored permit is consumed at once.
      if s.permit then s.(permit := false, fetcher := Woken) else s.(fetcher := Parked)
  }

  // ---------------------------------------------------------------- invariants

  /** An entry was an answer of the endpoint for exactly this key, and expires one TTL after that answer. */
  ghost predicate FromAnswer(c: Config, s: State, k: CacheKey, e: Entry) {
    exists a :: a in s.answers && KeyOf(a.ctx) == k && a.at <= s.now && Holds(c, e, a.decision, a.at)
  }

  ghost predicate CacheSound(c: Config, s: State) {
    (forall k :: k in s.cache ==> FromAnswer(c, s, k, s.cache[k]))
    && (s.fetcher.Storing? ==> FromAnswer(c, s, s.fetcher.key, s.fetcher.entry))
  }

  /** Waiting contexts are filed under their own keys. */
  ghost predicate WellKeyed(s: State) {
    (forall k :: k in s.pending ==> KeyOf(s.pending[k]) == k)
    && (forall k :: k in Remaining(s) ==> KeyOf(Remaining(s)[k]) == k)
  }

  ghost function Remaining(s: State): map<CacheKey, AuthContext> {
    match s.fetcher
    case Posting(batch) => batch
    case Storing(_, _, batch) => batch
    case _ => map[]
  }

  /** A non-empty pending map is never forgotten: there is a stored permit, or the fetcher is awake and has yet to take
      the map, or some checker has enqueued and is about to notify. */
  ghost predicate NoLostWakeup(s: State) {
    (s.fetcher.Parked? ==> !s.permit)
    && (s.pending != map[] ==>
          s.permit || s.fetcher.Woken? || exists id :: id in s.checkers && s.checkers[id].Enqueued?)
  }

  /** The batch taken is the keys posted so far, once each, and those still to post. */
  ghost predicate BatchAccounted(s: State) {
    NoDuplicates(s.posted)
    && (s.fetcher.Posting? || s.fetcher.Storing? ==>
          forall k :: (k in s.taken <==> k in s.posted || k in Remaining(s)) && !(k in s.posted && k in Remaining(s)))
    && (s.fetcher.Parked? || s.fetcher.Woken? ==> forall k :: k in s.taken <==> k in s.posted)
  }

  ghost predicate Answered(s: State, k: CacheKey) {
    exists a :: a in s.answers && KeyOf(a.ctx) == k
  }

  /** Every key ever enqueued is pending, in the batch at hand, or answered. */
  ghost predicate RequestsKept(s: State) {
    forall k :: k in s.requested ==> k in s.pending || k in Remaining(s) || Answered(s, k)
  }

  ghost predicate Bounded(c: Config, s: State) {
    |s.cache| <= c.capacity
  }

  ghost predicate Inv(c: Config, s: State) {
    CacheSound(c, s) && WellKeyed(s) && NoLostWakeup(s) && BatchAccounted(s) && RequestsKept(s) && Bounded(c, s)
  }

  lemma InitInv(c: Config)
    ensures Inv(c, Init)
  {
  }

  lemma AnswersOnlyGrow(c: Config, s: State, step: Step)
    requires Enabled(c, s, step)
    ensures s.answers <= Next(c, s, step).answers && s.now <= Next(c, s, step).now
  {
  }

  lemma NextKeepsKeys(c: Config, s: State, step: Step)
    requires WellKeyed(s) && Enabled(c, s, step)
    ensures WellKeyed(Next(c, s, step))
  {
    if step.Take? {
      assert Remaining(Next(c, s, step)) == s.pending;
    } else {
      forall k | k in Remaining(Next(c, s, step))
        ensures k in Remaining(s) && Remaining(Next(c, s, step))[k] == Remaining(s)[k]
      {
      }
    }
  }

  lemma NextKeepsCacheSound(c: Config, s: State, step: Step)
    requires CacheSound(c, s) && WellKeyed(s) && Enabled(c, s, step)
    ensures CacheSound(c, Next(c, s, step))
  {
    var s' := Next(c, s, step);
    AnswersOnlyGrow(c, s, step);
    forall k, e | FromAnswer(c, s, k, e)
      ensures FromAnswer(c, s', k, e)
    {
      var a :| a in s.answers && KeyOf(a.ctx) == k && a.at <= s.now && Holds(c, e, a.decision, a.at);
      assert a in s'.answers;
    }
    match step
    case Post(key, decision) =>
      assert key in Remaining(s);
      assert Answer(s.fetcher.batch[key], decision, s.now) in s'.answers;
      assert FromAnswer(c, s', key, s'.fetcher.entry);
    case Store(evicted) =>
      assert forall k :: k in evicted ==> k in s.cache && evicted[k] == s.cache[k];
    case _ =>
  }

  lemma NextKeepsWakeup(c: Config, s: State, step: Step)
    requires NoLostWakeup(s) && Enabled(c, s, step)
    ensures NoLostWakeup(Next(c, s, step))
  {
    var s' := Next(c, s, step);
    if id :| id in s.checkers && s.checkers[id].Enqueued? {
      assert id in s'.checkers || s'.permit || s'.fetcher.Woken?;
    }
    if step.Enqueue? {
      assert s'.checkers[step.id].Enqueued?;
    }
  }

  lemma NextKeepsBatch(c: Config, s: State, step: Step)
    requires BatchAccounted(s) && Enabled(c, s, step)
    ensures BatchAccounted(Next(c, s, step))
  {
    if step.Post? {
      assert step.key in Remaining(s);
    }
  }

  lemma NextKeepsRequests(c: Config, s: State, step: Step)
    requires WellKeyed(s) && RequestsKept(s) && Enabled(c, s, step)
    ensures RequestsKept(Next(c, s, step))
  {
    var s' := Next(c, s, step);
    AnswersOnlyGrow(c, s, step);
    forall k | k in s'.requested
      ensures k in s'.pending || k in Remaining(s') || Answered(s', k)
    {
      if Answered(s, k) {
        var a :| a in s.answers && KeyOf(a.ctx) == k;
        assert a in s'.answers;
      }
      if step.Post? && k == step.key {
        assert k in Remaining(s);
        assert Answer(s.fetcher.batch[k], step.decision, s.now) in s'.answers;
      }
    }
  }

  lemma NextKeepsBound(c: Config, s: State, step: Step)
    requires ValidConfig(c) && Bounded(c, s) && Enabled(c, s, step)
    ensures Bounded(c, Next(c, s, step))
  {
    if step.Store? {
      EvictionMakesRoom(s.cache, c.capacity, step.evicted, s.fetcher.key, s.fetcher.entry);
    }
  }

  lemma {:induction false} NextKeepsInv(c: Config, s: State, step: Step)
    requires ValidConfig(c) && Inv(c, s) && Enabled(c, s, step)
    ensures Inv(c, Next(c, s, step))
  {
    NextKeepsCacheSound(c, s, step);
    NextKeepsKeys(c, s, step);
    NextKeepsWakeup(c, s, step);
    NextKeepsBatch(c, s, step);
    NextKeepsRequests(c, s, step);
    NextKeepsBound(c, s, step);
  }

  // ---------------------------------------------------------------- whole runs

  ghost predicate Run(c: Config, s: State, trace: seq<Step>, end: State)
    decreases |trace|
  {
    if trace == [] then s == end
    else Enabled(c, s, trace[0]) && Run(c, Next(c, s, trace[0]), trace[1..], end)
  }

  /** On every interleaving of checkers and fetcher. */
  lemma {:induction false} RunKeepsInv(c: Config, s: State, trace: seq<Step>, end: State)
    requires ValidConfig(c) && Inv(c, s) && Run(c, s, trace, end)
    ensures Inv(c, end)
    decreases |trace|
  {
    if trace != [] {
      NextKeepsInv(c, s, trace[0]);
      RunKeepsInv(c, Next(c, s, trace[0]), trace[1..], end);
    }
  }

  /** Clocks were read in the past. */
  ghost predicate AskedBefore(s: State) {
    forall id :: id in s.checkers && s.checkers[id].Asking? ==> s.checkers[id].asked <= s.now
  }

  lemma {:induction false} RunKeepsAsked(c: Config, s: State, trace: seq<Step>, end: State)
    requires AskedBefore(s) && Run(c, s, trace, end)
    ensures AskedBefore(end)
    decreases |trace|
  {
    if trace != [] {
      RunKeepsAsked(c, Next(c, s, trace[0]), trace[1..], end);
    }
  }

  /** A check that read the clock at `asked` and, however much later, hits the cache returns a decision the endpoint
      gave for exactly that context, and `asked` is less than the allow TTL after the answer if it was an allow, and
      less than the deny TTL after it if it was a deny. */
  lemma {:induction false} HitIsRecentAnswer(c: Config, trace: seq<Step>, s: State, id: CheckerId)
    requires ValidConfig(c) && Run(c, Init, trace, s) && Enabled(c, s, LookUp(id))
    requires Fresh(s, KeyOf(s.checkers[id].ctx), s.checkers[id].asked)
    ensures var check := s.checkers[id];
            check.asked <= s.now
            && exists a :: a in s.answers && a.ctx == check.ctx && a.decision == s.cache[KeyOf(check.ctx)].decision
                 && a.at <= s.now && (a.decision == Allow ==> check.asked < a.at + c.allowTtl)
                 && (a.decision.Deny? ==> check.asked < a.at + c.denyTtl)
  {
    InitInv(c);
    RunKeepsInv(c, Init, trace, s);
    RunKeepsAsked(c, Init, trace, s);
    var ctx := s.checkers[id].ctx;
    var e := s.cache[KeyOf(ctx)];
    var a :| a in s.answers && KeyOf(a.ctx) == KeyOf(ctx) && a.at <= s.now && Holds(c, e, a.decision, a.at);
    KeyDeterminesContext(a.ctx, ctx);
  }

  /** What a check in that state returns: the cached decision when there is a fresh one, and a deny for now. */
  ghost function Returned(s: State, id: CheckerId): AuthDecision
    requires id in s.checkers && s.checkers[id].Asking?
  {
    var check := s.checkers[id];
    if Fresh(s, KeyOf(check.ctx), check.asked) then s.cache[KeyOf(check.ctx)].decision
    else Deny("webhook cache miss; decision pending")
  }

  /** On the run no store evicts or replaces the key's entry. */
  ghost predicate Undisturbed(c: Config, s: State, trace: seq<Step>, k: CacheKey)
    decreases |trace|
  {
    trace == []
    || (Enabled(c, s, trace[0]) && Undisturbed(c, Next(c, s, trace[0]), trace[1..], k)
        && (trace[0].Store? ==> s.fetcher.key != k && k in trace[0].evicted))
  }

  lemma {:induction false} UndisturbedStays(c: Config, s: State, trace: seq<Step>, end: State, k: CacheKey)
    requires Run(c, s, trace, end) && k in s.cache && Undisturbed(c, s, trace, k)
    ensures k in end.cache && end.cache[k] == s.cache[k]
    decreases |trace|
  {
    if trace != [] {
      if trace[0].Store? && !(|s.cache| < c.capacity || s.cache == map[]) {
        var gone :| LeastExpiry(s.cache, gone) && trace[0].evicted == s.cache - {gone};
      }
      UndisturbedStays(c, Next(c, s, trace[0]), trace[1..], end, k);
    }
  }

  lemma {:induction false} StoringWaits(c: Config, s: State, trace: seq<Step>, end: State)
    requires Run(c, s, trace, end) && s.fetcher.Storing? && forall i :: 0 <= i < |trace| ==> !trace[i].Store?
    ensures end.fetcher == s.fetcher
    decreases |trace|
  {
    if trace != [] {
      StoringWaits(c, Next(c, s, trace[0]), trace[1..], end);
    }
  }

  /** The other half: an answer that came back while the clock stood at `s.now`, and then was stored, decides every
      check for its context that read the clock in time, an allow's before the allow TTL has passed since and a deny's
      before the deny TTL has, as long as no later store evicts or replaces it; and the check that read the clock later
      is denied for now and goes on to ask again. */
  lemma {:induction false} AnswerDecidesUntilExpiry(c: Config, s: State, key: CacheKey, decision: AuthDecision,
                                                    wait: seq<Step>, t: State, evicted: map<CacheKey, Entry>,
                                                    rest: seq<Step>, end: State, id: CheckerId)
    requires Enabled(c, s, Post(key, decision)) && Run(c, Next(c, s, Post(key, decision)), wait, t)
    requires (forall i :: 0 <= i < |wait| ==> !wait[i].Store?) && Enabled(c, t, Store(evicted))
    requires Run(c, Next(c, t, Store(evicted)), rest, end) && Undisturbed(c, Next(c, t, Store(evicted)), rest, key)
    requires Enabled(c, end, LookUp(id)) && KeyOf(end.checkers[id].ctx) == key
    ensures var asked := end.checkers[id].asked;
            var inTime := (decision == Allow ==> asked < s.now + c.allowTtl)
                          && (decision.Deny? ==> asked < s.now + c.denyTtl);
            (Returned(end, id) == if inTime then decision else Deny("webhook cache miss; decision pending"))
            && (id in Next(c, end, LookUp(id)).checkers <==> !inTime)
  {
    var posted := Next(c, s, Post(key, decision));
    StoringWaits(c, posted, wait, t);
    var entry := posted.fetcher.entry;
    assert Holds(c, entry, decision, s.now);
    var stored := Next(c, t, Store(evicted));
    assert key in stored.cache && stored.cache[key] == entry;
    hide Run, Undisturbed;
    UndisturbedStays(c, stored, rest, end, key);
  }

  lemma KeyDeterminesContext(a: AuthContext, b: AuthContext)
    requires KeyOf(a) == KeyOf(b)
    ensures a == b
  {
  }

  /** No wakeup is lost and the cache stays within its capacity, in every reachable state. */
  lemma {:induction false} ReachableIsLive(c: Config, trace: seq<Step>, s: State)
    requires ValidConfig(c) && Run(c, Init, trace, s)
    ensures NoLostWakeup(s) && |s.cache| <= c.capacity
  {
    InitInv(c);
    RunKeepsInv(c, Init, trace, s);
  }

  /** When nobody has anything left to do, every context ever enqueued has been answered. */
  lemma {:induction false} QuiescentMeansAnswered(c: Config, trace: seq<Step>, s: State, k: CacheKey)
    requires ValidConfig(c) && Run(c, Init, trace, s)
    requires s.fetcher.Parked? && (forall id :: id in s.checkers ==> !s.checkers[id].Enqueued?)
    requires k in s.requested
    ensures s.pending == map[] && Answered(s, k)
  {
    InitInv(c);
    RunKeepsInv(c, Init, trace, s);
  }

  ghost function Takes(trace: seq<Step>): nat {
    if trace == [] then 0 else (if trace[0].Take? then 1 else 0) + Takes(trace[1..])
  }

  ghost function Notifications(trace: seq<Step>): nat {
    if trace == [] then 0 else (if trace[0].NotifyOne? then 1 else 0) + Notifications(trace[1..])
  }

  /** Wakeups that have been paid for and not yet used. */
  ghost function Credit(s: State): nat {
    (if s.permit then 1 else 0) + (if s.fetcher.Woken? then 1 else 0)
  }

  lemma {:induction false} TakesArePaidFor(c: Config, s: State, trace: seq<Step>, end: State)
    requires Run(c, s, trace, end)
    ensures Takes(trace) + Credit(end) <= Notifications(trace) + Credit(s)
    decreases |trace|
  {
    if trace != [] {
      TakesArePaidFor(c, Next(c, s, trace[0]), trace[1..], end);
    }
  }

  /** The fetcher does not spin: it takes the pending map no more often than checkers have notified it. */
  lemma {:induction false} NoSpuriousBatches(c: Config, trace: seq<Step>, s: State)
    requires Run(c, Init, trace, s)
    ensures Takes(trace) <= Notifications(trace)
  {
    TakesArePaidFor(c, Init, trace, s);
  }

  // ---------------------------------------------------------------- one batch

  /** The fetcher's own steps from a state in which it holds a batch: how many are left before it returns to the
      notifier, whatever the checkers do meanwhile. */
  ghost function Work(f: Fetcher): nat {
    match f
    case Posting(batch) => 2 * |batch| + 1
    case Storing(_, _, batch) => 2 * |batch| + 2
    case _ => 0
  }

  predicate FetcherStep(step: Step) {
    step.Post? || step.Store? || step.Finish?
  }

  /** The work left strictly decreases with each fetcher step, no other step adds to it, and the fetcher always has one
      to make until it is done; it cannot be interrupted by a new take. */
  lemma {:induction false} BatchTerminates(c: Config, s: State, step: Step)
    requires Enabled(c, s, step) && Work(s.fetcher) > 0
    ensures !step.Take?
    ensures FetcherStep(step) ==> Work(Next(c, s, step).fetcher) < Work(s.fetcher)
    ensures !FetcherStep(step) ==> Next(c, s, step).fetcher == s.fetcher
    ensures exists own :: FetcherStep(own) && Enabled(c, s, own)
  {
    if step.Post? {
      assert (s.fetcher.batch - {step.key}).Keys == s.fetcher.batch.Keys - {step.key};
    }
    match s.fetcher
    case Posting(batch) =>
      if batch == map[] {
        assert Enabled(c, s, Finish);
      } else {
        var key :| key in batch;
        assert Enabled(c, s, Post(key, Allow));
      }
    case Storing(_, _, _) =>
      if |s.cache| < c.capacity || s.cache == map[] {
        assert Enabled(c, s, Store(s.cache));
      } else {
        var k := SomeLeast(s.cache);
        assert Enabled(c, s, Store(s.cache - {k}));
      }
    case _ =>
  }

  lemma {:induction false} SomeLeast(cache: map<CacheKey, Entry>) returns (k: CacheKey)
    requires cache != map[]
    ensures LeastExpiry(cache, k)
    decreases |cache|
  {
    k :| k in cache;
    var rest := cache - {k};
    assert rest.Keys == cache.Keys - {k};
    assert forall j :: j in cache ==> j == k || (j in rest && rest[j] == cache[j]);
    if rest != map[] {
      var m := SomeLeast(rest);
      if cache[m].expiresAt < cache[k].expiresAt {
        k := m;
      }
    }
  }

  /** When a batch ends, exactly the keys taken have been posted, each exactly once. */
  lemma {:induction false} BatchPostedOnce(c: Config, trace: seq<Step>, s: State)
    requires ValidConfig(c) && Run(c, Init, trace, s) && Enabled(c, s, Finish)
    ensures NoDuplicates(s.posted) && forall k :: k in s.posted <==> k in s.taken
  {
    InitInv(c);
    RunKeepsInv(c, Init, trace, s);
  }
}
