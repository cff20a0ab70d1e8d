/** Runtime stream keys (crates/lvqr-auth/src/stream_key_store.rs): the records, their expiry, and the two-map store
    as one caller at a time sees it. Fresh ids and tokens and the clock are parameters. */
module StreamKeys {
  import opened Bytes

  type Id = string
  type Token = string

  datatype StreamKey = StreamKey(
    id: Id,
    token: Token,
    tag: Option<string>,
    broadcast: Option<string>,
    createdAt: u64,
    expiresAt: Option<u64>)

  datatype StreamKeySpec = StreamKeySpec(tag: Option<string>, broadcast: Option<string>, ttlSeconds: Option<u64>)

  /** No TTL and a TTL of zero both mean "never"; a sum past u64 saturates. */
  function TtlToExpiry(ttl: Option<u64>, now: u64): Option<u64> {
    if ttl.None? || ttl.value == 0 then None
    else Some(if now + ttl.value > U64_MAX then U64_MAX else now + ttl.value)
  }

  predicate IsExpired(key: StreamKey, now: u64) {
    key.expiresAt.Some? && now >= key.expiresAt.value
  }

  function MintedKey(id: Id, token: Token, spec: StreamKeySpec, now: u64): StreamKey {
    StreamKey(id, token, spec.tag, spec.broadcast, now, TtlToExpiry(spec.ttlSeconds, now))
  }

  /** Rotation replaces the token; an override replaces every other setting too, clearing what it leaves out. */
  function RotatedKey(key: StreamKey, token: Token, override: Option<StreamKeySpec>, now: u64): StreamKey {
    match override
    case Some(spec) => MintedKey(key.id, token, spec, now)
    case None => key.(token := token, createdAt := now)
  }

  // ---------------------------------------------------------------- the store as a value

  datatype Store = Store(byId: map<Id, StreamKey>, byToken: map<Token, Id>)

  /** `byToken` is exactly the inverse of `byId`. */
  ghost predicate Inverse(st: Store) {
    (forall id :: id in st.byId ==>
       st.byId[id].id == id && st.byId[id].token in st.byToken && st.byToken[st.byId[id].token] == id)
    && (forall token :: token in st.byToken ==>
       st.byToken[token] in st.byId && st.byId[st.byToken[token]].token == token)
  }

  function Minted(st: Store, key: StreamKey): Store {
    Store(st.byId[key.id := key], st.byToken[key.token := key.id])
  }

  function Revoked(st: Store, id: Id): Store {
    if id !in st.byId then st else Store(st.byId - {id}, st.byToken - {st.byId[id].token})
  }

  function Rotated(st: Store, id: Id, token: Token, override: Option<StreamKeySpec>, now: u64): Store {
    if id !in st.byId then st
    else Store(st.byId[id := RotatedKey(st.byId[id], token, override, now)],
               (st.byToken - {st.byId[id].token})[token := id])
  }

  /** `get_by_token`: unknown tokens and expired keys both miss. */
  function Lookup(st: Store, token: Token, now: u64): Option<StreamKey> {
    if token in st.byToken && st.byToken[token] in st.byId && !IsExpired(st.byId[st.byToken[token]], now)
    then Some(st.byId[st.byToken[token]]) else None
  }

  datatype Op =
    | Mint(key: StreamKey)
    | Revoke(id: Id)
    | Rotate(id: Id, token: Token, override: Option<StreamKeySpec>, now: u64)

  /** The random supply never repeats an id or a token that is in use. */
  predicate FreshFor(st: Store, op: Op) {
    match op
    case Mint(key) => key.id !in st.byId && key.token !in st.byToken
    case Revoke(_) => true
    case Rotate(_, token, _, _) => token !in st.byToken
  }

  function After(st: Store, op: Op): Store {
    match op
    case Mint(key) => Minted(st, key)
    case Revoke(id) => Revoked(st, id)
    case Rotate(id, token, override, now) => Rotated(st, id, token, override, now)
  }

  lemma OpKeepsInverse(st: Store, op: Op)
    requires Inverse(st) && FreshFor(st, op)
    ensures Inverse(After(st, op))
  {
  }

  ghost predicate FreshRun(st: Store, ops: seq<Op>)
    decreases |ops|
  {
    ops == [] || (FreshFor(st, ops[0]) && FreshRun(After(st, ops[0]), ops[1..]))
  }

  ghost function AfterAll(st: Store, ops: seq<Op>): Store
    decreases |ops|
  {
    if ops == [] then st else AfterAll(After(st, ops[0]), ops[1..])
  }

  lemma {:induction false} HistoryKeepsInverse(st: Store, ops: seq<Op>)
    requires Inverse(st) && FreshRun(st, ops)
    ensures Inverse(AfterAll(st, ops))
    decreases |ops|
  {
    if ops != [] {
      OpKeepsInverse(st, ops[0]);
      HistoryKeepsInverse(After(st, ops[0]), ops[1..]);
    }
  }

  /** The operation generates that token. */
  predicate Issues(op: Op, token: Token) {
    match op
    case Mint(key) => key.token == token
    case Revoke(_) => false
    case Rotate(_, next, _, _) => next == token
  }

  /** A token that is not indexed stays so until an operation generates it. */
  lemma {:induction false} UnissuedStaysOut(st: Store, ops: seq<Op>, token: Token)
    requires token !in st.byToken && forall i :: 0 <= i < |ops| ==> !Issues(ops[i], token)
    ensures token !in AfterAll(st, ops).byToken
    decreases |ops|
  {
    if ops != [] {
      UnissuedStaysOut(After(st, ops[0]), ops[1..], token);
    }
  }

  /** A lookup hits exactly the unexpired key that carries the token. */
  lemma LookupExact(st: Store, token: Token, now: u64, key: StreamKey)
    requires Inverse(st)
    ensures Lookup(st, token, now) == Some(key) <==>
              key.token == token && key.id in st.byId && st.byId[key.id] == key && !IsExpired(key, now)
  {
    if key.token == token && key.id in st.byId && st.byId[key.id] == key {
      assert st.byToken[token] == key.id;
    }
  }

  /** After a revoke, or a rotate, of its id an old token misses. */
  lemma OldTokenMisses(st: Store, id: Id, token: Token, override: Option<StreamKeySpec>, now: u64, later: u64)
    requires Inverse(st) && id in st.byId && token !in st.byToken
    ensures Lookup(Revoked(st, id), st.byId[id].token, later).None?
    ensures Lookup(Rotated(st, id, token, override, now), st.byId[id].token, later).None?
  {
    assert token != st.byId[id].token;
  }

  // ---------------------------------------------------------------- what a key says, and for how long

  /** The moment from which a key of that TTL, issued at `now`, has expired: never without one or with a TTL of zero,
      and at the latest at the end of time. */
  ghost predicate ExpiredBy(ttl: Option<u64>, now: u64, later: u64) {
    ttl.Some? && ttl.value != 0 && (now + ttl.value <= later || later == U64_MAX)
  }

  /** None of the operations is about that id. */
  predicate Spares(ops: seq<Op>, id: Id) {
    forall i :: 0 <= i < |ops| ==>
      match ops[i]
      case Mint(key) => key.id != id
      case Revoke(other) => other != id
      case Rotate(other, _, _, _) => other != id
  }

  lemma {:induction false} SparedKeyStays(st: Store, ops: seq<Op>, id: Id)
    requires id in st.byId && Spares(ops, id)
    ensures id in AfterAll(st, ops).byId && AfterAll(st, ops).byId[id] == st.byId[id]
    decreases |ops|
  {
    if ops != [] {
      SparedKeyStays(After(st, ops[0]), ops[1..], id);
    }
  }

  /** A minted key is found under its token, as it was asked for, through any later operations on other keys: for good
      without a TTL or with a TTL of zero, and otherwise until the TTL has passed. */
  lemma {:induction false} MintedKeyHitsIff(st: Store, id: Id, token: Token, spec: StreamKeySpec, now: u64,
                                            ops: seq<Op>, later: u64)
    requires Inverse(st) && id !in st.byId && token !in st.byToken
    requires var after := After(st, Mint(MintedKey(id, token, spec, now))); FreshRun(after, ops) && Spares(ops, id)
    ensures var hit := Lookup(AfterAll(After(st, Mint(MintedKey(id, token, spec, now))), ops), token, later);
            (hit.None? <==> ExpiredBy(spec.ttlSeconds, now, later))
            && (hit.Some? ==> hit.value.id == id && hit.value.token == token && hit.value.createdAt == now
                              && hit.value.tag == spec.tag && hit.value.broadcast == spec.broadcast)
  {
    var key := MintedKey(id, token, spec, now);
    OpKeepsInverse(st, Mint(key));
    HistoryKeepsInverse(After(st, Mint(key)), ops);
    SparedKeyStays(After(st, Mint(key)), ops, id);
    LookupExact(AfterAll(After(st, Mint(key)), ops), token, later, key);
    hide Inverse, FreshRun, AfterAll, After;
  }

  /** After a rotation the new token finds the key, through any later operations on other keys. With no override, the
      key keeps its tag, its scope and its expiry; with one, it has exactly what the override says, and a TTL that
      begins anew. */
  lemma {:induction false} RotatedKeyHitsIff(st: Store, id: Id, token: Token, override: Option<StreamKeySpec>, now: u64,
                                             ops: seq<Op>, later: u64)
    requires Inverse(st) && id in st.byId && token !in st.byToken
    requires var after := After(st, Rotate(id, token, override, now)); FreshRun(after, ops) && Spares(ops, id)
    ensures var hit := Lookup(AfterAll(After(st, Rotate(id, token, override, now)), ops), token, later);
            var was := st.byId[id];
            (hit.Some? ==> hit.value.id == id && hit.value.token == token && hit.value.createdAt == now)
            && (override.None? ==>
                  (hit.None? <==> was.expiresAt.Some? && was.expiresAt.value <= later)
                  && (hit.Some? ==> hit.value.tag == was.tag && hit.value.broadcast == was.broadcast
                                    && hit.value.expiresAt == was.expiresAt))
            && (override.Some? ==>
                  (hit.None? <==> ExpiredBy(override.value.ttlSeconds, now, later))
                  && (hit.Some? ==> hit.value.tag == override.value.tag
                                    && hit.value.broadcast == override.value.broadcast))
  {
    var op := Rotate(id, token, override, now);
    var key := RotatedKey(st.byId[id], token, override, now);
    assert key.token == token && key.id == id;
    OpKeepsInverse(st, op);
    assert After(st, op).byId[id] == key;
    HistoryKeepsInverse(After(st, op), ops);
    SparedKeyStays(After(st, op), ops, id);
    LookupExact(AfterAll(After(st, op), ops), token, later, key);
    hide Inverse, FreshRun, AfterAll, After;
  }

  // ---------------------------------------------------------------- the store as an object

  class InMemoryStreamKeyStore {
    var byId: map<Id, StreamKey>
    var byToken: map<Token, Id>

    ghost predicate Valid()
      reads this
    {
      Inverse(Contents())
    }

    function Contents(): Store
      reads this
    {
      Store(byId, byToken)
    }

    constructor ()
      ensures Valid() && Contents() == Store(map[], map[])
    {
      byId := map[];
      byToken := map[];
    }

    method GetByToken(token: Token, now: u64) returns (r: Option<StreamKey>)
      requires Valid()
      ensures r.Some? ==> r.value.token == token && r.value.id in byId && byId[r.value.id] == r.value
      ensures r.Some? ==> !IsExpired(r.value, now)
      ensures r.None? ==> forall id :: id in byId && byId[id].token == token ==> IsExpired(byId[id], now)
    {
      if token !in byToken {
        return None;
      }
      var id := byToken[token];
      if id !in byId {
        return None;
      }
      if IsExpired(byId[id], now) {
        return None;
      }
      return Some(byId[id]);
    }

    method MintKey(id: Id, token: Token, spec: StreamKeySpec, now: u64) returns (key: StreamKey)
      requires Valid() && id !in byId && token !in byToken
      modifies this
      ensures Valid() && key.id == id && key.token == token && key.createdAt == now
      ensures key.tag == spec.tag && key.broadcast == spec.broadcast
      ensures forall later: u64 :: IsExpired(key, later) <==> ExpiredBy(spec.ttlSeconds, now, later)
      ensures key == MintedKey(id, token, spec, now)
      ensures Contents() == After(old(Contents()), Mint(key))
    {
      key := StreamKey(id, token, spec.tag, spec.broadcast, now, TtlToExpiry(spec.ttlSeconds, now));
      byToken := byToken[key.token := key.id];
      byId := byId[key.id := key];
    }

    method RevokeKey(id: Id) returns (found: bool)
      requires Valid()
      modifies this
      ensures Valid() && found == (id in old(byId))
      ensures Contents() == After(old(Contents()), Revoke(id))
    {
      if id !in byId {
        return false;
      }
      var key := byId[id];
      byId := byId - {id};
      byToken := byToken - {key.token};
      return true;
    }

    method RotateKey(id: Id, token: Token, override: Option<StreamKeySpec>, now: u64) returns (r: Option<StreamKey>)
      requires Valid() && token !in byToken
      modifies this
      ensures Valid() && if id in old(byId) then id in byId && r == Some(byId[id]) else r == None
      ensures r.Some? ==> r.value.id == id && r.value.token == token && r.value.createdAt == now
      ensures r.Some? && override.None? ==>
                r.value.tag == old(byId)[id].tag && r.value.broadcast == old(byId)[id].broadcast
                && r.value.expiresAt == old(byId)[id].expiresAt
      ensures r.Some? && override.Some? ==>
                r.value.tag == override.value.tag && r.value.broadcast == override.value.broadcast
                && forall later: u64 :: IsExpired(r.value, later) <==> ExpiredBy(override.value.ttlSeconds, now, later)
      ensures Contents() == After(old(Contents()), Rotate(id, token, override, now))
    {
      if id !in byId {
        return None;
      }
      var entry := byId[id];
      var prior := entry.token;
      if override.Some? {
        entry := entry.(tag := override.value.tag, broadcast := override.value.broadcast,
                        expiresAt := TtlToExpiry(override.value.ttlSeconds, now));
      }
      entry := entry.(token := token, createdAt := now);
      byId := byId[id := entry];
      byToken := byToken - {prior};
      byToken := byToken[token := id];
      return Some(entry);
    }
  }
}
