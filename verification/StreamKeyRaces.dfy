/** The stream-key store under concurrency (crates/lvqr-auth/src/stream_key_store.rs). Every DashMap operation of
    mint, revoke, rotate and get_by_token is one atomic step; any number of calls interleave. */
module StreamKeyRaces {
  import opened Bytes
  import opened StreamKeys

  type ThreadId = nat

  /** What a call still has to do. */
  datatype Pc =
    | Minting(key: StreamKey)                                  // by_token written, by_id still to come
    | Revoking(key: StreamKey)                                 // by_id entry removed, its token still indexed
    | RotateRemove(id: Id, prior: Token, next: Token)          // by_id entry updated, prior token still indexed
    | RotateInsert(id: Id, next: Token)                        // prior token removed, new one not yet indexed
    | LookingUp(token: Token, id: Id)                          // by_token hit, by_id still to be read

  /** The two maps and the calls in flight, with a history: which id each token was generated for, all ids ever
      used, the ids revoked, and the tokens whose removal found nothing to remove. */
  datatype State = State(
    byId: map<Id, StreamKey>,
    byToken: map<Token, Id>,
    calls: map<ThreadId, Pc>,
    issued: map<Token, Id>,
    ids: set<Id>,
    revoked: set<Id>,
    missed: set<Token>,
    panicked: bool)

  const Init := State(map[], map[], map[], map[], {}, {}, {}, false)

  datatype Step =
    | MintStart(key: StreamKey)
    | MintFinish
    | RevokeStart(id: Id)
    | RevokeFinish
    | RotateStart(id: Id, token: Token, override: Option<StreamKeySpec>, now: u64)
    | RotateSwapOut
    | RotateSwapIn
    | LookupStart(token: Token)
    | LookupFinish

  /** Fresh ids and tokens are those no call has generated before: what 16 and 32 random bytes stand for. */
  ghost predicate Enabled(s: State, t: ThreadId, step: Step) {
    !s.panicked && match step
    case MintStart(key) => t !in s.calls && key.token !in s.issued && key.id !in s.ids
    case MintFinish => t in s.calls && s.calls[t].Minting?
    case RevokeStart(id) => t !in s.calls && id in s.byId
    case RevokeFinish => t in s.calls && s.calls[t].Revoking?
    case RotateStart(id, token, _, _) => t !in s.calls && id in s.byId && token !in s.issued
    case RotateSwapOut => t in s.calls && s.calls[t].RotateRemove?
    case RotateSwapIn => t in s.calls && s.calls[t].RotateInsert?
    case LookupStart(token) => t !in s.calls && token in s.byToken
    case LookupFinish => t in s.calls && s.calls[t].LookingUp?
  }

  ghost function Next(s: State, t: ThreadId, step: Step): State
    requires Enabled(s, t, step)
  {
    match step
    case MintStart(key) =>
      s.(byToken := s.byToken[key.token := key.id], calls := s.calls[t := Minting(key)],
         issued := s.issued[key.token := key.id], ids := s.ids + {key.id}, panicked := key.token in s.byToken)
    case MintFinish =>
      var key := s.calls[t].key;
      s.(byId := s.byId[key.id := key], calls := s.calls - {t})
    case RevokeStart(id) =>
      s.(byId := s.byId - {id}, calls := s.calls[t := Revoking(s.byId[id])], revoked := s.revoked + {id})
    case RevokeFinish =>
      RemoveToken(s, s.calls[t].key.token).(calls := s.calls - {t})
    case RotateStart(id, token, override, now) =>
      s.(byId := s.byId[id := RotatedKey(s.byId[id], token, override, now)],
         calls := s.calls[t := RotateRemove(id, s.byId[id].token, token)], issued := s.issued[token := id])
    case RotateSwapOut =>
      RemoveToken(s, s.calls[t].prior).(calls := s.calls[t := RotateInsert(s.calls[t].id, s.calls[t].next)])
    case RotateSwapIn =>
      var c := s.calls[t];
      s.(byToken := s.byToken[c.next := c.id], calls := s.calls - {t}, panicked := c.next in s.byToken)
    case LookupStart(token) =>
      s.(calls := s.calls[t := LookingUp(token, s.byToken[token])])
    case LookupFinish =>
      s.(calls := s.calls - {t})
  }

  /** `by_token.remove`: a removal that finds no entry is remembered in `missed`. */
  ghost function RemoveToken(s: State, token: Token): State {
    s.(byToken := s.byToken - {token}, missed := if token in s.byToken then s.missed else s.missed + {token})
  }

  /** What `get_by_token` returns when its second map read runs in `s`. */
  ghost function LookupResult(s: State, t: ThreadId, now: u64): Option<StreamKey>
    requires t in s.calls && s.calls[t].LookingUp?
  {
    if s.calls[t].id in s.byId && !IsExpired(s.byId[s.calls[t].id], now) then Some(s.byId[s.calls[t].id]) else None
  }

  // ---------------------------------------------------------------- the invariant

  function Removes(pc: Pc): Option<Token> {
    match pc
    case Revoking(key) => Some(key.token)
    case RotateRemove(_, prior, _) => Some(prior)
    case _ => None
  }

  function Inserts(pc: Pc): Option<Token> {
    match pc
    case RotateRemove(_, _, next) => Some(next)
    case RotateInsert(_, next) => Some(next)
    case _ => None
  }

  ghost predicate PendingRemoval(s: State, token: Token) {
    exists t :: t in s.calls && Removes(s.calls[t]) == Some(token)
  }

  ghost predicate PendingInsert(s: State, token: Token) {
    exists t :: t in s.calls && Inserts(s.calls[t]) == Some(token)
  }

  ghost predicate PendingMint(s: State, token: Token) {
    exists t :: t in s.calls && s.calls[t].Minting? && s.calls[t].key.token == token
  }

  /** The token is the credential of a live key. */
  ghost predicate Current(s: State, token: Token) {
    token in s.issued && s.issued[token] in s.byId && s.byId[s.issued[token]].token == token
  }

  ghost predicate IssuedTo(s: State, token: Token, id: Id) {
    token in s.issued && s.issued[token] == id
  }

  /** Every map entry and every call in flight speaks of tokens by the id they were generated for. */
  ghost predicate NamesAgree(s: State) {
    MapsAgree(s) && forall t :: t in s.calls ==> CallAgrees(s, s.calls[t])
  }

  ghost predicate MapsAgree(s: State) {
    (forall token :: token in s.issued ==> s.issued[token] in s.ids)
    && (forall token :: token in s.byToken ==> IssuedTo(s, token, s.byToken[token]))
    && (forall id :: id in s.byId ==> s.byId[id].id == id && IssuedTo(s, s.byId[id].token, id))
    && (forall id :: id in s.revoked ==> id in s.ids && id !in s.byId)
  }

  ghost predicate CallAgrees(s: State, pc: Pc) {
    match pc
    case Minting(key) => IssuedTo(s, key.token, key.id) && key.id !in s.byId && key.id !in s.revoked
    case Revoking(key) => IssuedTo(s, key.token, key.id) && key.id in s.revoked
    case RotateRemove(id, prior, next) => IssuedTo(s, prior, id) && IssuedTo(s, next, id) && prior != next
    case RotateInsert(id, next) => IssuedTo(s, next, id)
    case LookingUp(token, id) => IssuedTo(s, token, id)
  }

  /** No two calls mint the same id, remove the same token or insert the same token. */
  ghost predicate CallsDistinct(s: State) {
    forall t, u :: t in s.calls && u in s.calls && t != u ==> Differ(s.calls[t], s.calls[u])
  }

  predicate Differ(a: Pc, b: Pc) {
    (Removes(a).Some? ==> Removes(a) != Removes(b))
    && (Inserts(a).Some? ==> Inserts(a) != Inserts(b))
    && (a.Minting? && b.Minting? ==> a.key.id != b.key.id)
  }

  ghost predicate Indexed(s: State, token: Token) {
    token in s.byToken || PendingInsert(s, token)
  }

  /** Where each token stands: a live key's token is indexed or about to be; an indexed token that is not a live
      key's belongs to a half-done mint, or awaits its removal, or was missed by it. */
  ghost predicate TokenAccounted(s: State, token: Token) {
    (token in s.byToken ==> !PendingInsert(s, token))
    && (Current(s, token) ==> Indexed(s, token))
    && (Indexed(s, token) ==>
          Current(s, token) || PendingMint(s, token) || PendingRemoval(s, token) || token in s.missed)
    && (PendingRemoval(s, token) ==> Indexed(s, token) && !Current(s, token) && token !in s.missed)
    && (token in s.missed ==> Indexed(s, token) && !Current(s, token))
    && (PendingMint(s, token) ==>
          token in s.byToken && !Current(s, token) && !PendingRemoval(s, token) && token !in s.missed)
  }

  ghost predicate Inv(s: State) {
    !s.panicked && NamesAgree(s) && CallsDistinct(s) && forall token :: TokenAccounted(s, token)
  }

  // ---------------------------------------------------------------- every step keeps it

  lemma NeverPanics(s: State, t: ThreadId, step: Step)
    requires Inv(s) && Enabled(s, t, step)
    ensures !Next(s, t, step).panicked
  {
    hide CallsDistinct;
    if step.RotateSwapIn? {
      assert Inserts(s.calls[t]) == Some(s.calls[t].next);
      assert PendingInsert(s, s.calls[t].next);
      assert TokenAccounted(s, s.calls[t].next);
    }
  }

  lemma NextKeepsMaps(s: State, t: ThreadId, step: Step)
    requires NamesAgree(s) && Enabled(s, t, step)
    ensures MapsAgree(Next(s, t, step))
  {
    if t in s.calls {
      assert CallAgrees(s, s.calls[t]);
    }
  }

  lemma NextKeepsOwnCall(s: State, t: ThreadId, step: Step)
    requires MapsAgree(s) && Enabled(s, t, step) && t in Next(s, t, step).calls
    requires t in s.calls ==> CallAgrees(s, s.calls[t])
    ensures CallAgrees(Next(s, t, step), Next(s, t, step).calls[t])
  {
  }

  lemma NextKeepsOtherCall(s: State, t: ThreadId, step: Step, u: ThreadId)
    requires MapsAgree(s) && CallsDistinct(s) && Enabled(s, t, step) && u in s.calls && u != t
    requires t in s.calls ==> CallAgrees(s, s.calls[t])
    requires CallAgrees(s, s.calls[u])
    ensures CallAgrees(Next(s, t, step), s.calls[u])
  {
    if step.MintFinish? && s.calls[u].Minting? {
      assert Differ(s.calls[u], s.calls[t]);
    }
    hide CallsDistinct, Differ;
  }

  lemma NextKeepsNames(s: State, t: ThreadId, step: Step)
    requires NamesAgree(s) && CallsDistinct(s) && Enabled(s, t, step)
    ensures NamesAgree(Next(s, t, step))
  {
    NextKeepsMaps(s, t, step);
    forall u | u in Next(s, t, step).calls
      ensures CallAgrees(Next(s, t, step), Next(s, t, step).calls[u])
    {
      if u == t {
        NextKeepsOwnCall(s, t, step);
      } else {
        NextKeepsOtherCall(s, t, step, u);
      }
    }
  }

  lemma NextDiffers(s: State, t: ThreadId, step: Step, u: ThreadId)
    requires Inv(s) && Enabled(s, t, step) && u in s.calls && u != t && t in Next(s, t, step).calls
    ensures Differ(Next(s, t, step).calls[t], s.calls[u])
  {
    assert CallAgrees(s, s.calls[u]);
    if step.RevokeStart? || step.RotateStart? {
      NotAwaitingRemoval(s, s.byId[step.id].token);
    } else if t in s.calls {
      assert Differ(s.calls[t], s.calls[u]);
    }
    hide TokenAccounted, CallsDistinct;
  }

  /** A step changes no other call. */
  lemma OtherCallsStay(s: State, t: ThreadId, step: Step)
    requires Enabled(s, t, step)
    ensures var s' := Next(s, t, step);
            forall u :: u != t ==> (u in s'.calls <==> u in s.calls) && (u in s.calls ==> s'.calls[u] == s.calls[u])
  {
  }

  lemma NextKeepsDistinct(s: State, t: ThreadId, step: Step)
    requires Inv(s) && Enabled(s, t, step)
    ensures CallsDistinct(Next(s, t, step))
  {
    hide Next, Enabled, Differ, NamesAgree, TokenAccounted;
    var s' := Next(s, t, step);
    OtherCallsStay(s, t, step);
    forall u | u in s.calls && u != t && t in s'.calls
      ensures Differ(s'.calls[t], s.calls[u]) && Differ(s.calls[u], s'.calls[t])
    {
      NextDiffers(s, t, step, u);
      DifferSymmetric(s'.calls[t], s.calls[u]);
    }
  }

  lemma DifferSymmetric(a: Pc, b: Pc)
    requires Differ(a, b)
    ensures Differ(b, a)
  {
  }

  lemma NotAwaitingRemoval(s: State, token: Token)
    requires Inv(s) && Current(s, token)
    ensures forall u :: u in s.calls ==> Removes(s.calls[u]) != Some(token)
  {
    assert TokenAccounted(s, token);
    assert !PendingRemoval(s, token);
  }

  // Pending work of the calls other than `t`.

  ghost predicate OtherRemoval(s: State, t: ThreadId, token: Token) {
    exists u :: u in s.calls && u != t && Removes(s.calls[u]) == Some(token)
  }

  ghost predicate OtherInsert(s: State, t: ThreadId, token: Token) {
    exists u :: u in s.calls && u != t && Inserts(s.calls[u]) == Some(token)
  }

  ghost predicate OtherMint(s: State, t: ThreadId, token: Token) {
    exists u :: u in s.calls && u != t && s.calls[u].Minting? && s.calls[u].key.token == token
  }

  ghost predicate Mints(pc: Pc, token: Token) {
    pc.Minting? && pc.key.token == token
  }

  /** Pending work is that of the other calls and that of `t`. */
  lemma PendingSplit(s: State, t: ThreadId, token: Token)
    ensures PendingRemoval(s, token) <==>
              OtherRemoval(s, t, token) || (t in s.calls && Removes(s.calls[t]) == Some(token))
    ensures PendingInsert(s, token) <==>
              OtherInsert(s, t, token) || (t in s.calls && Inserts(s.calls[t]) == Some(token))
    ensures PendingMint(s, token) <==> OtherMint(s, t, token) || (t in s.calls && Mints(s.calls[t], token))
  {
  }

  /** A step of `t` leaves the others' pending work alone. */
  lemma OthersUnchanged(s: State, t: ThreadId, step: Step, token: Token)
    requires Enabled(s, t, step)
    ensures var s' := Next(s, t, step);
            (OtherRemoval(s', t, token) <==> OtherRemoval(s, t, token))
            && (OtherInsert(s', t, token) <==> OtherInsert(s, t, token))
            && (OtherMint(s', t, token) <==> OtherMint(s, t, token))
  {
    var s' := Next(s, t, step);
    OtherCallsStay(s, t, step);
  }

  /** Distinct calls: what `t` is about to remove or insert, or has half minted, is nobody else's business. */
  lemma OthersDiffer(s: State, t: ThreadId, token: Token)
    requires NamesAgree(s) && CallsDistinct(s) && t in s.calls
    ensures Removes(s.calls[t]) == Some(token) ==> !OtherRemoval(s, t, token)
    ensures Inserts(s.calls[t]) == Some(token) ==> !OtherInsert(s, t, token)
    ensures Mints(s.calls[t], token) ==> !OtherMint(s, t, token)
  {
  }

  /** Work on a token is work on a token that was issued. */
  lemma PendingIsIssued(s: State, token: Token)
    requires NamesAgree(s)
    ensures PendingRemoval(s, token) || PendingInsert(s, token) || PendingMint(s, token) ==> token in s.issued
  {
  }

  /** The facts about one token that the step of `t` can touch. */
  lemma TokenFacts(s: State, t: ThreadId, step: Step, token: Token)
    requires Inv(s) && Enabled(s, t, step)
    ensures TokenAccounted(s, token)
    ensures forall other :: other == s || other == Next(s, t, step) ==>
              (PendingRemoval(other, token) <==>
                 OtherRemoval(s, t, token) || (t in other.calls && Removes(other.calls[t]) == Some(token)))
              && (PendingInsert(other, token) <==>
                 OtherInsert(s, t, token) || (t in other.calls && Inserts(other.calls[t]) == Some(token)))
              && (PendingMint(other, token) <==>
                 OtherMint(s, t, token) || (t in other.calls && Mints(other.calls[t], token)))
    ensures PendingRemoval(s, token) || PendingInsert(s, token) || PendingMint(s, token) ==> token in s.issued
    ensures t in s.calls && Removes(s.calls[t]) == Some(token) ==> !OtherRemoval(s, t, token)
    ensures t in s.calls && Inserts(s.calls[t]) == Some(token) ==> !OtherInsert(s, t, token)
    ensures t in s.calls && Mints(s.calls[t], token) ==> !OtherMint(s, t, token)
    ensures token in s.byToken ==> IssuedTo(s, token, s.byToken[token])
    ensures t in s.calls ==> CallAgrees(s, s.calls[t])
  {
    PendingSplit(s, t, token);
    PendingSplit(Next(s, t, step), t, token);
    OthersUnchanged(s, t, step, token);
    PendingIsIssued(s, token);
    if t in s.calls {
      OthersDiffer(s, t, token);
    }
  }

  lemma MintKeepsToken(s: State, t: ThreadId, step: Step, token: Token)
    requires Inv(s) && Enabled(s, t, step) && (step.MintStart? || step.MintFinish?)
    ensures TokenAccounted(Next(s, t, step), token)
  {
    TokenFacts(s, t, step, token);
    hide PendingRemoval, PendingInsert, PendingMint, CallsDistinct;
  }

  lemma RevokeKeepsToken(s: State, t: ThreadId, step: Step, token: Token)
    requires Inv(s) && Enabled(s, t, step) && (step.RevokeStart? || step.RevokeFinish?)
    ensures TokenAccounted(Next(s, t, step), token)
  {
    TokenFacts(s, t, step, token);
    hide PendingRemoval, PendingInsert, PendingMint, CallsDistinct;
  }

  lemma RotateStartKeepsToken(s: State, t: ThreadId, step: Step, token: Token)
    requires Inv(s) && Enabled(s, t, step) && step.RotateStart?
    ensures TokenAccounted(Next(s, t, step), token)
  {
    TokenFacts(s, t, step, token);
    hide PendingRemoval, PendingInsert, PendingMint, CallsDistinct;
  }

  lemma RotateSwapKeepsToken(s: State, t: ThreadId, step: Step, token: Token)
    requires Inv(s) && Enabled(s, t, step) && (step.RotateSwapOut? || step.RotateSwapIn?)
    ensures TokenAccounted(Next(s, t, step), token)
  {
    TokenFacts(s, t, step, token);
    hide PendingRemoval, PendingInsert, PendingMint, CallsDistinct;
  }

  lemma LookupKeepsToken(s: State, t: ThreadId, step: Step, token: Token)
    requires Inv(s) && Enabled(s, t, step) && (step.LookupStart? || step.LookupFinish?)
    ensures TokenAccounted(Next(s, t, step), token)
  {
    TokenFacts(s, t, step, token);
    hide PendingRemoval, PendingInsert, PendingMint, CallsDistinct;
  }

  lemma NextKeepsToken(s: State, t: ThreadId, step: Step, token: Token)
    requires Inv(s) && Enabled(s, t, step)
    ensures TokenAccounted(Next(s, t, step), token)
  {
    if step.MintStart? || step.MintFinish? {
      MintKeepsToken(s, t, step, token);
    } else if step.RevokeStart? || step.RevokeFinish? {
      RevokeKeepsToken(s, t, step, token);
    } else if step.RotateStart? {
      RotateStartKeepsToken(s, t, step, token);
    } else if step.RotateSwapOut? || step.RotateSwapIn? {
      RotateSwapKeepsToken(s, t, step, token);
    } else {
      LookupKeepsToken(s, t, step, token);
    }
  }

  lemma {:induction false} NextKeepsInv(s: State, t: ThreadId, step: Step)
    requires Inv(s) && Enabled(s, t, step)
    ensures Inv(Next(s, t, step))
  {
    NeverPanics(s, t, step);
    NextKeepsNames(s, t, step);
    NextKeepsDistinct(s, t, step);
    forall token
      ensures TokenAccounted(Next(s, t, step), token)
    {
      NextKeepsToken(s, t, step, token);
    }
  }

  // ---------------------------------------------------------------- whole runs

  ghost predicate Run(s: State, trace: seq<(ThreadId, Step)>, end: State)
    decreases |trace|
  {
    if trace == [] then s == end
    else Enabled(s, trace[0].0, trace[0].1) && Run(Next(s, trace[0].0, trace[0].1), trace[1..], end)
  }

  /** On every interleaving the invariant holds: in particular neither collision panic fires. */
  lemma {:induction false} RunKeepsInv(s: State, trace: seq<(ThreadId, Step)>, end: State)
    requires Inv(s) && Run(s, trace, end)
    ensures Inv(end) && !end.panicked
    decreases |trace|
  {
    if trace != [] {
      NextKeepsInv(s, trace[0].0, trace[0].1);
      RunKeepsInv(Next(s, trace[0].0, trace[0].1), trace[1..], end);
    }
  }

  lemma InitInv()
    ensures Inv(Init)
  {
  }

  /** A revoked id stays revoked. */
  lemma {:induction false} RevokedForever(s: State, trace: seq<(ThreadId, Step)>, end: State)
    requires Run(s, trace, end)
    ensures s.revoked <= end.revoked
    decreases |trace|
  {
    if trace != [] {
      RevokedForever(Next(s, trace[0].0, trace[0].1), trace[1..], end);
    }
  }

  /** However calls interleave, a lookup that returns a key returns a live, unexpired key of the id its token was
      generated for, and never one whose id was revoked at any earlier point `mid` of the run, even after the lookup
      had begun. */
  lemma {:induction false} LookupIsSound(before: seq<(ThreadId, Step)>, mid: State, after: seq<(ThreadId, Step)>,
                                         end: State, t: ThreadId, now: u64)
    requires Run(Init, before, mid) && Run(mid, after, end)
    requires t in end.calls && end.calls[t].LookingUp? && LookupResult(end, t, now).Some?
    ensures var key := LookupResult(end, t, now).value;
            IssuedTo(end, end.calls[t].token, key.id) && key.id in end.byId && end.byId[key.id] == key
            && !IsExpired(key, now) && key.id !in mid.revoked
  {
    InitInv();
    RunKeepsInv(Init, before, mid);
    RunKeepsInv(mid, after, end);
    RevokedForever(mid, after, end);
    assert CallAgrees(end, end.calls[t]);
  }

  /** No call is between its two map writes. */
  ghost predicate Quiescent(s: State) {
    forall t :: t in s.calls ==> s.calls[t].LookingUp?
  }

  /** The reverse map is exactly the inverse of the id map. */
  ghost predicate ExactInverse(s: State) {
    (forall id :: id in s.byId ==> s.byId[id].token in s.byToken && s.byToken[s.byId[id].token] == id)
    && (forall token :: token in s.byToken ==> s.byToken[token] in s.byId && s.byId[s.byToken[token]].token == token)
  }

  lemma NothingPending(s: State, token: Token)
    requires Quiescent(s)
    ensures !PendingRemoval(s, token) && !PendingInsert(s, token) && !PendingMint(s, token)
  {
  }

  /** At quiescence every live key's current token leads to its id, on every run. */
  lemma {:induction false} LiveKeysAreIndexed(trace: seq<(ThreadId, Step)>, s: State, id: Id)
    requires Run(Init, trace, s) && Quiescent(s) && id in s.byId
    ensures s.byId[id].token in s.byToken && s.byToken[s.byId[id].token] == id
  {
    InitInv();
    RunKeepsInv(Init, trace, s);
    var token := s.byId[id].token;
    assert Current(s, token) && TokenAccounted(s, token);
    NothingPending(s, token);
  }

  /** The reverse map is the exact inverse at quiescence just when every removal found the entry it was to remove. */
  lemma {:induction false} ExactInverseIffNoneMissed(trace: seq<(ThreadId, Step)>, s: State)
    requires Run(Init, trace, s) && Quiescent(s)
    ensures ExactInverse(s) <==> s.missed == {}
  {
    InitInv();
    RunKeepsInv(Init, trace, s);
    if token :| token in s.missed {
      assert TokenAccounted(s, token);
      NothingPending(s, token);
      assert token in s.byToken && !Current(s, token);
    } else {
      forall id | id in s.byId
        ensures s.byId[id].token in s.byToken && s.byToken[s.byId[id].token] == id
      {
        LiveKeysAreIndexed(trace, s, id);
      }
      forall token | token in s.byToken
        ensures s.byToken[token] in s.byId && s.byId[s.byToken[token]].token == token
      {
        assert TokenAccounted(s, token);
        NothingPending(s, token);
      }
    }
  }

  /** A lookup of the token would hit a key whose token it no longer is. */
  ghost predicate StaleHit(s: State, token: Token, now: u64) {
    var hit := Lookup(Store(s.byId, s.byToken), token, now);
    hit.Some? && hit.value.token != token
  }

  /** The key the token was generated for is still there, and unexpired. */
  ghost predicate KeyLives(s: State, token: Token, now: u64) {
    token in s.issued && s.issued[token] in s.byId && !IsExpired(s.byId[s.issued[token]], now)
  }

  /** Exactly when a replaced token still works, in any reachable state: it is indexed, its key lives, and either the
      call that replaced it has yet to remove it, or the removal came and found nothing to remove. */
  lemma {:induction false} StaleHitIff(trace: seq<(ThreadId, Step)>, s: State, token: Token, now: u64)
    requires Run(Init, trace, s)
    ensures StaleHit(s, token, now) <==>
              token in s.byToken && KeyLives(s, token, now) && (PendingRemoval(s, token) || token in s.missed)
  {
    InitInv();
    RunKeepsInv(Init, trace, s);
    assert TokenAccounted(s, token);
    assert PendingMint(s, token) ==> token in s.issued && s.issued[token] !in s.byId by {
      if t :| t in s.calls && s.calls[t].Minting? && s.calls[t].key.token == token {
        assert CallAgrees(s, s.calls[t]);
      }
    }
    hide PendingRemoval, PendingInsert, PendingMint, CallsDistinct;
  }

  /** The promise that the old token is invalidated once rotate has returned: when every call has, some replaced token
      still works exactly if a removal that found nothing was of a token whose key lives. A revoke that overlaps a
      rotate can miss a token too, but its key is gone and the promise holds. */
  lemma {:induction false} ReplacedTokensDieIff(trace: seq<(ThreadId, Step)>, s: State, now: u64)
    requires Run(Init, trace, s) && Quiescent(s)
    ensures forall token :: StaleHit(s, token, now) <==> token in s.missed && KeyLives(s, token, now)
    ensures (forall token :: !StaleHit(s, token, now)) <==>
              forall token :: token in s.missed ==> !KeyLives(s, token, now)
  {
    InitInv();
    RunKeepsInv(Init, trace, s);
    forall token
      ensures StaleHit(s, token, now) <==> token in s.missed && KeyLives(s, token, now)
    {
      StaleHitIff(trace, s, token, now);
      NothingPending(s, token);
      assert TokenAccounted(s, token);
      hide StaleHit, KeyLives, PendingRemoval, PendingInsert, PendingMint;
    }
  }

  // ---------------------------------------------------------------- one call per id at a time

  predicate WorksOn(pc: Pc, id: Id) {
    match pc
    case Revoking(key) => key.id == id
    case RotateRemove(i, _, _) => i == id
    case RotateInsert(i, _) => i == id
    case _ => false
  }

  /** A revoke or rotate starts only when no other one is half done on the same id. */
  ghost predicate Serial(s: State, step: Step) {
    (step.RevokeStart? || step.RotateStart?) ==> forall u :: u in s.calls ==> !WorksOn(s.calls[u], step.id)
  }

  ghost predicate SerialRun(s: State, trace: seq<(ThreadId, Step)>, end: State)
    decreases |trace|
  {
    if trace == [] then s == end
    else Enabled(s, trace[0].0, trace[0].1) && Serial(s, trace[0].1)
         && SerialRun(Next(s, trace[0].0, trace[0].1), trace[1..], end)
  }

  ghost predicate OneCallPerId(s: State) {
    forall t, u, id :: t in s.calls && u in s.calls && WorksOn(s.calls[t], id) && WorksOn(s.calls[u], id) ==> t == u
  }

  /** Then the entry a removal is after is there: nobody else can be about to insert it. */
  lemma RemovalFindsEntry(s: State, t: ThreadId, token: Token)
    requires Inv(s) && OneCallPerId(s) && t in s.calls && Removes(s.calls[t]) == Some(token)
    ensures token in s.byToken
  {
    assert PendingRemoval(s, token);
    assert TokenAccounted(s, token);
    assert CallAgrees(s, s.calls[t]);
    forall u | u in s.calls && Inserts(s.calls[u]) == Some(token)
      ensures u == t
    {
      assert CallAgrees(s, s.calls[u]);
      assert WorksOn(s.calls[u], s.issued[token]) && WorksOn(s.calls[t], s.issued[token]);
    }
  }

  lemma {:induction false} SerialRunMissesNothing(s: State, trace: seq<(ThreadId, Step)>, end: State)
    requires Inv(s) && OneCallPerId(s) && s.missed == {} && SerialRun(s, trace, end)
    ensures Run(s, trace, end) && end.missed == {}
    decreases |trace|
  {
    if trace != [] {
      var t, step := trace[0].0, trace[0].1;
      var s' := Next(s, t, step);
      NextKeepsInv(s, t, step);
      if step.RevokeFinish? || step.RotateSwapOut? {
        RemovalFindsEntry(s, t, Removes(s.calls[t]).value);
      }
      SerialKeepsOnePerId(s, t, step);
      SerialRunMissesNothing(s', trace[1..], end);
    }
  }

  lemma SerialKeepsOnePerId(s: State, t: ThreadId, step: Step)
    requires NamesAgree(s) && OneCallPerId(s) && Enabled(s, t, step) && Serial(s, step)
    ensures OneCallPerId(Next(s, t, step))
  {
    var s' := Next(s, t, step);
    OtherCallsStay(s, t, step);
    forall id | t in s.calls && t in s'.calls && WorksOn(s'.calls[t], id)
      ensures WorksOn(s.calls[t], id)
    {
    }
  }

  /** When the operations on each id do not overlap, the two maps are exact inverses whenever no call is half done. */
  lemma {:induction false} SerialRunsKeepInverse(trace: seq<(ThreadId, Step)>, s: State)
    requires SerialRun(Init, trace, s) && Quiescent(s)
    ensures ExactInverse(s)
  {
    InitInv();
    SerialRunMissesNothing(Init, trace, s);
    ExactInverseIffNoneMissed(trace, s);
  }

  /** No call is minting, revoking or rotating that id. */
  ghost predicate Untouched(s: State, id: Id) {
    forall t :: t in s.calls ==> !WorksOn(s.calls[t], id) && !(s.calls[t].Minting? && s.calls[t].key.id == id)
  }

  /** The same for each id by itself: whatever calls on other ids are half done, once none is on this one, a token
      generated for it is indexed exactly when it is the current token of its key. */
  lemma {:induction false} SerialIdIsExact(trace: seq<(ThreadId, Step)>, s: State, token: Token)
    requires SerialRun(Init, trace, s) && token in s.issued && Untouched(s, s.issued[token])
    ensures token in s.byToken <==> s.issued[token] in s.byId && s.byId[s.issued[token]].token == token
  {
    InitInv();
    SerialRunMissesNothing(Init, trace, s);
    RunKeepsInv(Init, trace, s);
    forall t | t in s.calls
      ensures Removes(s.calls[t]) != Some(token) && Inserts(s.calls[t]) != Some(token) && !Mints(s.calls[t], token)
    {
      assert CallAgrees(s, s.calls[t]);
    }
    assert TokenAccounted(s, token);
  }

  // ---------------------------------------------------------------- two overlapping rotations of one id

  /** The documented promise "the old token is invalidated the moment rotate returns" fails for overlapping rotates:
      the second one removes the first one's token before the first one has indexed it. Both calls have returned, yet
      the token the second rotate replaced still finds the key. */
  lemma {:induction false} OverlappingRotatesLeaveStaleToken(key: StreamKey, a: Token, b: Token)
    requires a != b && a != key.token && b != key.token
    ensures exists trace, s :: Run(Init, trace, s) && Quiescent(s) && !ExactInverse(s)
              && key.id in s.byId && s.byId[key.id].token == b && a in s.byToken && s.byToken[a] == key.id
  {
    hide Run;
    RunEmpty(Init);
    var s1 := Next(Init, 0, MintStart(key));
    RunSnoc(Init, [], Init, 0, MintStart(key));
    var r1 := [] + [(0, MintStart(key))];
    var s2 := Next(s1, 0, MintFinish);
    RunSnoc(Init, r1, s1, 0, MintFinish);
    var r2 := r1 + [(0, MintFinish)];
    assert s2.byId == map[key.id := key] && s2.byToken == map[key.token := key.id] && s2.calls == map[];
    var trace, s := OverlapTwoRotates(s2, r2, key, a, b);
    assert s.byToken[a] == key.id;
    assert Quiescent(s);
  }

  lemma OverlapTwoRotates(s2: State, r2: seq<(ThreadId, Step)>, key: StreamKey, a: Token, b: Token)
    returns (trace: seq<(ThreadId, Step)>, s: State)
    requires a != b && a != key.token && b != key.token
    requires Run(Init, r2, s2) && !s2.panicked && s2.issued == map[key.token := key.id]
    requires s2.byId == map[key.id := key] && s2.byToken == map[key.token := key.id] && s2.calls == map[]
    ensures Run(Init, trace, s) && s.calls == map[] && key.id in s.byId && s.byId[key.id].token == b
    ensures s.byToken == map[b := key.id, a := key.id]
  {
    hide Run;
    var s3 := Next(s2, 1, RotateStart(key.id, a, None, 0));
    RunSnoc(Init, r2, s2, 1, RotateStart(key.id, a, None, 0));
    var r3 := r2 + [(1, RotateStart(key.id, a, None, 0))];
    var s4 := Next(s3, 2, RotateStart(key.id, b, None, 0));
    RunSnoc(Init, r3, s3, 2, RotateStart(key.id, b, None, 0));
    var r4 := r3 + [(2, RotateStart(key.id, b, None, 0))];
    assert s4.calls[1] == RotateRemove(key.id, key.token, a) && s4.calls[2] == RotateRemove(key.id, a, b);
    trace, s := OverlapSwaps(s4, r4, key.id, key.token, a, b);
  }

  lemma OverlapSwaps(s4: State, r4: seq<(ThreadId, Step)>, id: Id, first: Token, a: Token, b: Token)
    returns (trace: seq<(ThreadId, Step)>, s: State)
    requires a != b && a != first && b != first
    requires Run(Init, r4, s4) && !s4.panicked && s4.byToken == map[first := id]
    requires s4.calls == map[1 := RotateRemove(id, first, a), 2 := RotateRemove(id, a, b)]
    ensures Run(Init, trace, s) && s.calls == map[] && s.byId == s4.byId
    ensures s.byToken == map[b := id, a := id]
  {
    hide Run;
    var s5 := Next(s4, 2, RotateSwapOut);
    RunSnoc(Init, r4, s4, 2, RotateSwapOut);
    var r5 := r4 + [(2, RotateSwapOut)];
    assert s5.byToken == map[first := id];
    var s6 := Next(s5, 2, RotateSwapIn);
    RunSnoc(Init, r5, s5, 2, RotateSwapIn);
    var r6 := r5 + [(2, RotateSwapIn)];
    assert s6.calls == map[1 := RotateRemove(id, first, a)] && s6.byToken == map[first := id, b := id];
    trace, s := OverlapLastSwap(s6, r6, id, first, a, b);
  }

  lemma OverlapLastSwap(s6: State, r6: seq<(ThreadId, Step)>, id: Id, first: Token, a: Token, b: Token)
    returns (trace: seq<(ThreadId, Step)>, s: State)
    requires a != b && a != first && b != first
    requires Run(Init, r6, s6) && !s6.panicked && s6.byToken == map[first := id, b := id]
    requires s6.calls == map[1 := RotateRemove(id, first, a)]
    ensures Run(Init, trace, s) && s.calls == map[] && s.byId == s6.byId
    ensures s.byToken == map[b := id, a := id]
  {
    hide Run;
    var s7 := Next(s6, 1, RotateSwapOut);
    RunSnoc(Init, r6, s6, 1, RotateSwapOut);
    var r7 := r6 + [(1, RotateSwapOut)];
    assert s7.byToken == map[b := id];
    s := Next(s7, 1, RotateSwapIn);
    RunSnoc(Init, r7, s7, 1, RotateSwapIn);
    trace := r7 + [(1, RotateSwapIn)];
  }

  lemma RunEmpty(s: State)
    ensures Run(s, [], s)
  {
  }

  lemma {:induction false} RunSnoc(s: State, trace: seq<(ThreadId, Step)>, mid: State, t: ThreadId, step: Step)
    requires Run(s, trace, mid) && Enabled(mid, t, step)
    ensures Run(s, trace + [(t, step)], Next(mid, t, step))
    decreases |trace|
  {
    if trace == [] {
      assert [(t, step)][1..] == [];
    } else {
      RunSnoc(Next(s, trace[0].0, trace[0].1), trace[1..], mid, t, step);
      assert (trace + [(t, step)])[1..] == trace[1..] + [(t, step)];
    }
  }

  // ---------------------------------------------------------------- uninterrupted calls

  /** A call that nobody interrupts does to the two maps what the sequential store does. */
  lemma UninterruptedCalls(s: State, t: ThreadId, key: StreamKey, id: Id, token: Token,
                           override: Option<StreamKeySpec>, now: u64)
    requires Inv(s) && t !in s.calls
    ensures key.token !in s.issued && key.id !in s.ids ==>
              var end := Next(Next(s, t, MintStart(key)), t, MintFinish);
              Store(end.byId, end.byToken) == Minted(Store(s.byId, s.byToken), key)
    ensures id in s.byId ==>
              var end := Next(Next(s, t, RevokeStart(id)), t, RevokeFinish);
              Store(end.byId, end.byToken) == Revoked(Store(s.byId, s.byToken), id)
    ensures id in s.byId && token !in s.issued ==>
              var mid := Next(s, t, RotateStart(id, token, override, now));
              var end := Next(Next(mid, t, RotateSwapOut), t, RotateSwapIn);
              Store(end.byId, end.byToken) == Rotated(Store(s.byId, s.byToken), id, token, override, now)
  {
  }

  /** Whatever other calls do between its two map reads, a lookup returns the unexpired record of the id its token led
      to at the first read, as the record is at the second. With nothing in between, that is the sequential lookup. */
  lemma {:induction false} LookupReturnsIff(s: State, t: ThreadId, token: Token, trace: seq<(ThreadId, Step)>,
                                            end: State, now: u64)
    requires Enabled(s, t, LookupStart(token)) && Run(Next(s, t, LookupStart(token)), trace, end)
    requires forall i :: 0 <= i < |trace| ==> trace[i].0 != t
    ensures t in end.calls && end.calls[t] == LookingUp(token, s.byToken[token])
    ensures var id := s.byToken[token];
            LookupResult(end, t, now) == if id in end.byId && (end.byId[id].expiresAt.Some? ==>
                                                                 now < end.byId[id].expiresAt.value)
                                         then Some(end.byId[id]) else None
    ensures trace == [] ==> LookupResult(end, t, now) == Lookup(Store(s.byId, s.byToken), token, now)
  {
    WaitsUnchanged(Next(s, t, LookupStart(token)), t, trace, end);
  }

  lemma {:induction false} WaitsUnchanged(s: State, t: ThreadId, trace: seq<(ThreadId, Step)>, end: State)
    requires t in s.calls && Run(s, trace, end) && forall i :: 0 <= i < |trace| ==> trace[i].0 != t
    ensures t in end.calls && end.calls[t] == s.calls[t]
    decreases |trace|
  {
    if trace != [] {
      OtherCallsStay(s, trace[0].0, trace[0].1);
      hide Next, Enabled;
      WaitsUnchanged(Next(s, trace[0].0, trace[0].1), t, trace[1..], end);
    }
  }
}
