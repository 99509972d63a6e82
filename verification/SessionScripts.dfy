/**
 * What each Lua script does to a user's state, as a function of that state and its arguments.
 * The class in UserStore.dfy runs the scripts statement by statement and is proved to
 * compute these functions.
 */
module SessionScripts {
  import opened Wrappers
  import opened SessionTypes
  import opened SortedSet

  /** SET key value EX ttl */
  function Put(st: Store, j: Jti, env: Envelope, ttl: int): Store {
    st.(records := st.records[j := Entry(env, st.now + ttl)])
  }

  function Del(st: Store, js: set<Jti>): Store {
    st.(records := st.records - js)
  }

  function Zrem(st: Store, js: set<Jti>): Store {
    st.(index := st.index - js)
  }

  function Zadd(st: Store, j: Jti, score: int): Store {
    st.(index := st.index[j := score])
  }

  /** An active record that has not reached a boundary at time `now`. */
  predicate LiveAt(h: Header, now: int) {
    h.st == Active && now < h.exp && (h.idle.Some? ==> now < h.idle.value)
  }

  // ---------------------------------------------------------------- create, enforce-limit

  /** The evicted ids are kept as a set: no caller reads their order. */
  datatype CreateReply = Created(evicted: set<Jti>) | CreateReplayed(jti: Jti) | CreateCollision

  /** Bounded oldest-first eviction, shared by create.lua and enforce-limit.lua; a limit of 0 disables it. */
  function Surplus(index: map<Jti, int>, limit: nat, bound: nat): set<Jti> {
    if limit > 0 && |index| > limit then OldestSet(index, Min(|index| - limit, bound)) else {}
  }

  function Evict(st: Store, gone: set<Jti>): Store {
    Zrem(Del(st, gone), gone)
  }

  /** create.lua after the claim: collision check, write, index, eviction. */
  function Admit(cfg: Config, st: Store, env: Envelope, j: Jti, createdAt: int, ttl: int): (Store, CreateReply) {
    if j in st.records then (st, CreateCollision)
    else
      var evicted := Surplus(st.index[j := createdAt], cfg.maxSessionsPerUser, cfg.maxEvictionsPerCall);
      (Evict(Zadd(Put(st, j, env, ttl), j, createdAt), evicted), Created(evicted))
  }

  /** The claims after a create that no claim answers. */
  function Claimed(cfg: Config, st: Store, j: Jti, ttl: int): Store {
    if cfg.enableCreateIdempotency
    then st.(claims := st.claims[j := Claim(j, st.now + Min(60, Max(1, ttl)))])
    else st
  }

  function CreateScript(cfg: Config, st: Store, env: Envelope, j: Jti, createdAt: int, ttl: int)
    : (Store, CreateReply)
  {
    if cfg.enableCreateIdempotency && j in st.claims then (st, CreateReplayed(st.claims[j].jti))
    else Admit(cfg, Claimed(cfg, st, j, ttl), env, j, createdAt, ttl)
  }

  function EnforceLimitScript(cfg: Config, st: Store): (Store, set<Jti>) {
    var evicted := Surplus(st.index, cfg.maxSessionsPerUser, cfg.maxEvictionsPerCall);
    (Evict(st, evicted), evicted)
  }

  // ---------------------------------------------------------------- validate

  datatype ValidateReply =
    | ValidateMissing
    | ValidateInactive(st: Status)
    | ValidateExpired
    | ValidateIdle
    | ValidateSecurity
    | ValidateRead(env: Envelope, securityVersion: Option<nat>)

  /** The member that lazy cleanup removes: the record's own jti when it can be read. */
  function CleanupMember(env: Envelope, j: Jti): Jti {
    if env.Plain? then env.s.jti else j
  }

  function ValidateScript(st: Store, j: Jti): (Store, ValidateReply) {
    if j !in st.records then (st, ValidateMissing)
    else
      var env := st.records[j].env;
      var h := Mirror(env);
      if h.st != Active then (st, ValidateInactive(h.st))
      else if !LiveAt(h, st.now) then
        (Zrem(Del(st, {j}), {CleanupMember(env, j)}),
         if h.exp <= st.now then ValidateExpired else ValidateIdle)
      else if env.Plain? && st.securityVersion.Some? && env.s.securityVersion != st.securityVersion then
        (st, ValidateSecurity)
      else (st, ValidateRead(env, st.securityVersion))
  }

  // ---------------------------------------------------------------- touch

  datatype TouchReply =
    | Touched | TouchThrottled | TouchStale | TouchMissing | TouchInactive
    | TouchExpired | TouchIdle | TouchWrongMode

  function TouchedRecord(cfg: Config, s: Record, now: int): Record {
    s.(lastAccessedAt := now,
       idleExpiresAt := if cfg.idleTimeout.Some?
                        then Some(Min(now + cfg.idleTimeout.value, s.absoluteExpiresAt))
                        else s.idleExpiresAt)
  }

  function TouchScript(cfg: Config, st: Store, j: Jti, force: bool): (Store, TouchReply) {
    if j !in st.records then (st, TouchMissing)
    else if st.records[j].env.Encrypted? then (st, TouchWrongMode)
    else
      var s := st.records[j].env.s;
      if s.status != Active then (st, TouchInactive)
      else if s.absoluteExpiresAt <= st.now then (Del(st, {j}), TouchExpired)
      else if s.idleExpiresAt.Some? && s.idleExpiresAt.value <= st.now then (st, TouchIdle)
      else if !force && st.now - s.lastAccessedAt < cfg.touchInterval then (st, TouchThrottled)
      else (Put(st, j, Plain(TouchedRecord(cfg, s, st.now)), Max(1, s.absoluteExpiresAt - st.now)), Touched)
  }

  /** `payload` is the rebuilt record; its la and idle are also passed in clear. */
  function TouchEncryptedScript(cfg: Config, st: Store, j: Jti, force: bool, payload: Record, ttl: int)
    : (Store, TouchReply)
  {
    if j !in st.records then (st, TouchMissing)
    else if st.records[j].env.Plain? then (st, TouchWrongMode)
    else
      var h := st.records[j].env.header;
      if h.st != Active then (st, TouchInactive)
      else if h.exp <= st.now then (Del(st, {j}), TouchExpired)
      else if h.idle.Some? && h.idle.value <= st.now then (st, TouchIdle)
      else if !force && st.now - h.la < cfg.touchInterval then (st, TouchThrottled)
      else if payload.lastAccessedAt < h.la then (st, TouchStale)
      else
        var h' := h.(la := payload.lastAccessedAt, idle := payload.idleExpiresAt);
        (Put(st, j, Encrypted(h', payload), ttl), Touched)
  }

  // ---------------------------------------------------------------- rotate

  datatype RotateReply =
    | Rotated(successor: Jti)
    | RotateReplay(known: Option<Jti>)
    | RotateMissing | RotateInactive | RotateExpired | RotateConflict | RotateCollision | RotateWrongMode

  /** The state checks shared by rotate.lua and rotate-encrypted.lua; None lets the rotation go on. */
  function RotateGate(st: Store, h: Header, succ: Jti, expected: Option<nat>, nonce: Option<string>)
    : Option<RotateReply>
  {
    if h.st == Consumed && nonce.Some? && h.rn == nonce then Some(RotateReplay(h.rj))
    else if h.st != Active then Some(RotateInactive)
    else if h.exp <= st.now then Some(RotateExpired)
    else if expected.Some? && h.ver != expected.value then Some(RotateConflict)
    else if succ in st.records then Some(RotateCollision)
    else None
  }

  function Refuse(st: Store, prev: Jti, reply: RotateReply): Store {
    if reply.RotateExpired? then Zrem(Del(st, {prev}), {prev}) else st
  }

  /** Writes the tombstone (or nothing), the successor, and swaps the index members. */
  function Swap(cfg: Config, st: Store, prev: Jti, tomb: Envelope, tombTtl: int,
                succ: Jti, next: Envelope, nextTtl: int): Store
  {
    var consumed := if cfg.retainConsumedTombstones then Put(st, prev, tomb, tombTtl) else Del(st, {prev});
    Zadd(Zrem(Put(consumed, succ, next, nextTtl), {prev}), succ, st.now)
  }

  function ConsumedRecord(s: Record, now: int, succ: Jti, nonce: Option<string>): Record {
    s.(status := Consumed, consumedAt := Some(now), rotatedTo := Some(succ), rotationNonceHash := nonce)
  }

  /** The successor as rotate.lua stores it, from the application's record. */
  function SuccessorRecord(ns: Record, from: Jti, now: int): Record {
    ns.(createdAt := now, lastAccessedAt := now, rotatedFrom := Some(from), version := 1,
        idleExpiresAt := if ns.idleExpiresAt.Some?
                         then Some(Min(ns.idleExpiresAt.value, ns.absoluteExpiresAt)) else None)
  }

  function RotateScript(cfg: Config, st: Store, prev: Jti, ns: Record, succ: Jti,
                        expected: Option<nat>, nonce: Option<string>): (Store, RotateReply)
  {
    if prev !in st.records then (st, RotateMissing)
    else if st.records[prev].env.Encrypted? then (st, RotateWrongMode)
    else
      var s := st.records[prev].env.s;
      var gate := RotateGate(st, EncryptedHeaderOf(s), succ, expected, nonce);
      if gate.Some? then (Refuse(st, prev, gate.value), gate.value)
      else
        (Swap(cfg, st, prev, Plain(ConsumedRecord(s, st.now, succ, nonce)), Max(1, s.absoluteExpiresAt - st.now),
              succ, Plain(SuccessorRecord(ns, s.jti, st.now)), Max(1, ns.absoluteExpiresAt - st.now)),
         Rotated(succ))
  }

  function TombHeader(h: Header, succ: Jti, nonce: Option<string>): Header {
    h.(st := Consumed, rn := nonce, rj := Some(succ))
  }

  function SuccessorHeader(h: Header, now: int): Header {
    Header(Active, 1, now, if h.idle.Some? then Some(Min(h.idle.value, h.exp)) else None, h.exp, None, None)
  }

  function RotateEncryptedScript(cfg: Config, st: Store, prev: Jti, consumed: Record, ns: Record, succ: Jti,
                                 expected: Option<nat>, nonce: Option<string>, nextTtl: int, tombTtl: int)
    : (Store, RotateReply)
  {
    if prev !in st.records then (st, RotateMissing)
    else if st.records[prev].env.Plain? then (st, RotateWrongMode)
    else
      var h := st.records[prev].env.header;
      var gate := RotateGate(st, h, succ, expected, nonce);
      if gate.Some? then (Refuse(st, prev, gate.value), gate.value)
      else
        (Swap(cfg, st, prev, Encrypted(TombHeader(h, succ, nonce), consumed), Max(1, tombTtl),
              succ, Encrypted(SuccessorHeader(EncryptedHeaderOf(ns), st.now), ns), Max(1, nextTtl)),
         Rotated(succ))
  }

  // ---------------------------------------------------------------- update

  datatype UpdateReply =
    | Updated(version: nat)
    | UpdateMissing | UpdateInactive | UpdateExpired | UpdateConflict | UpdateWrongMode

  function UpdatedRecord(s: Record, patch: Patch): Record {
    s.(profile := Patched(s.profile, patch), version := s.version + 1)
  }

  function UpdateScript(st: Store, j: Jti, expected: Option<nat>, patch: Patch): (Store, UpdateReply) {
    if j !in st.records then (st, UpdateMissing)
    else if st.records[j].env.Encrypted? then (st, UpdateWrongMode)
    else
      var s := st.records[j].env.s;
      if s.status != Active then (st, UpdateInactive)
      else if s.absoluteExpiresAt <= st.now then (Del(st, {j}), UpdateExpired)
      else if expected.Some? && s.version != expected.value then (st, UpdateConflict)
      else
        (Put(st, j, Plain(UpdatedRecord(s, patch)), Max(1, s.absoluteExpiresAt - st.now)),
         Updated(s.version + 1))
  }

  /** la and idle of the stored header come from the application's payload. */
  function UpdateEncryptedScript(st: Store, j: Jti, expected: Option<nat>, payload: Record, ttl: int)
    : (Store, UpdateReply)
  {
    if j !in st.records then (st, UpdateMissing)
    else if st.records[j].env.Plain? then (st, UpdateWrongMode)
    else
      var h := st.records[j].env.header;
      if h.st != Active then (st, UpdateInactive)
      else if h.exp <= st.now then (Del(st, {j}), UpdateExpired)
      else if expected.Some? && h.ver != expected.value then (st, UpdateConflict)
      else
        var h' := Header(Active, payload.version, payload.lastAccessedAt, payload.idleExpiresAt,
                         h.exp, h.rn, h.rj);
        (Put(st, j, Encrypted(h', payload), ttl), Updated(payload.version))
  }

  // ---------------------------------------------------------------- revoke, delete, cleanup

  datatype RevokeReply = RevokeDone | RevokeAgain | RevokeMissing | RevokeNoPayload

  function RevokeScript(st: Store, j: Jti, payload: Option<Record>, ttl: int): (Store, RevokeReply) {
    if j !in st.records then (st, RevokeMissing)
    else
      match st.records[j].env
      case Plain(s) =>
        if s.status == Revoked then (st, RevokeAgain)
        else (Put(st, j, Plain(s.(status := Revoked)), ttl), RevokeDone)
      case Encrypted(h, _) =>
        if h.st == Revoked then (st, RevokeAgain)
        else if payload.None? then (st, RevokeNoPayload)
        else (Put(st, j, Encrypted(h.(st := Revoked), payload.value), ttl), RevokeDone)
  }

  function DeleteScript(st: Store, j: Jti): (Store, bool) {
    (Zrem(Del(st, {j}), {j}), j in st.records)
  }

  /** The ids without a record, in order. */
  function Stale(records: map<Jti, Entry>, js: seq<Jti>): seq<Jti> {
    if js == [] then [] else (if js[0] !in records then [js[0]] else []) + Stale(records, js[1..])
  }

  function CleanupIndexScript(st: Store, js: seq<Jti>): (Store, seq<Jti>) {
    (Zrem(st, Elems(Stale(st.records, js))), Stale(st.records, js))
  }

  /** One batch of delete-by-user.lua: the records go one by one, then the whole index. */
  function DeleteBatchScript(st: Store, js: seq<Jti>): (Store, seq<Jti>)
    decreases |js|
  {
    if js == [] then (st.(index := map[]), [])
    else
      var (st', deleted) := DeleteBatchScript(Zrem(Del(st, {js[0]}), {js[0]}), js[1..]);
      (st', (if js[0] in st.records then [js[0]] else []) + deleted)
  }
}
