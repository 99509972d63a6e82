/**
 * The application side of each operation, and the transition system over one user's state:
 * any number of clients, clock ticks and TTL reclamation, in any order.
 *
 * An encrypted operation reads the record, decides and re-encrypts in the application, and
 * then runs a script. The step carries what was read and the application clock as arguments,
 * and neither is constrained: every stale read and every skewed clock is covered.
 */
module SessionSystem {
  import opened Wrappers
  import opened SessionTypes
  import opened SortedSet
  import opened SessionScripts

  // ---------------------------------------------------------------- records built by the service

  function IdleBoundary(cfg: Config, now: int): Option<int> {
    if cfg.idleTimeout.Some? then Some(Min(now + cfg.idleTimeout.value, now + cfg.ttl)) else None
  }

  function NewRecord(cfg: Config, j: Jti, now: int, profile: Profile, securityVersion: Option<nat>): Record {
    Record(j, now, now, now + cfg.ttl, IdleBoundary(cfg, now), Active, 1, securityVersion, profile,
           None, None, None, None)
  }

  function Successor(cfg: Config, succ: Jti, prev: Jti, now: int): Record {
    Record(succ, now, now, now + cfg.ttl, IdleBoundary(cfg, now), Active, 1, None,
           Profile(None, None, None, None), Some(prev), None, None, None)
  }

  // ---------------------------------------------------------------- two-phase encrypted operations

  /** What the application decides from a read: an answer of its own, or a script call. */
  datatype Plan<R> =
    | Answer(reply: R, drop: bool)
    | Submit(payload: Record, ttl: int)

  function TouchPlan(cfg: Config, read: Option<Envelope>, appNow: int, force: bool): Plan<TouchReply> {
    if read.None? then Answer(TouchMissing, false)
    else
      var r := Content(read.value);
      if r.status != Active then Answer(TouchInactive, false)
      else if r.absoluteExpiresAt <= appNow then Answer(TouchExpired, true)
      else if r.idleExpiresAt.Some? && r.idleExpiresAt.value <= appNow then Answer(TouchIdle, false)
      else if !force && appNow - r.lastAccessedAt < cfg.touchInterval then Answer(TouchThrottled, false)
      else Submit(TouchedRecord(cfg, r, appNow), Max(1, r.absoluteExpiresAt - appNow))
  }

  function TouchEncrypted(cfg: Config, st: Store, j: Jti, force: bool, read: Option<Envelope>, appNow: int)
    : (Store, TouchReply)
  {
    match TouchPlan(cfg, read, appNow, force)
    case Answer(reply, drop) => (if drop then Del(st, {j}) else st, reply)
    case Submit(payload, ttl) => TouchEncryptedScript(cfg, st, j, force, payload, ttl)
  }

  function RotatePlan(read: Option<Envelope>, appNow: int, succ: Jti,
                      expected: Option<nat>, nonce: Option<string>): Plan<RotateReply>
  {
    if read.None? then Answer(RotateMissing, false)
    else
      var r := Content(read.value);
      if r.status != Active then
        if nonce.Some? && r.rotationNonceHash == nonce && r.rotatedTo.Some?
        then Answer(RotateReplay(r.rotatedTo), false)
        else Answer(RotateInactive, false)
      else if r.absoluteExpiresAt <= appNow then Answer(RotateExpired, true)
      else if expected.Some? && r.version != expected.value then Answer(RotateConflict, false)
      else Submit(ConsumedRecord(r, appNow, succ, nonce), Max(1, r.absoluteExpiresAt - appNow))
  }

  function RotateEncrypted(cfg: Config, st: Store, prev: Jti, succ: Jti, expected: Option<nat>,
                           nonce: Option<string>, read: Option<Envelope>, appNow: int): (Store, RotateReply)
  {
    match RotatePlan(read, appNow, succ, expected, nonce)
    case Answer(reply, drop) => (if drop then Del(st, {prev}) else st, reply)
    case Submit(consumed, tombTtl) =>
      var ns := Successor(cfg, succ, prev, appNow);
      RotateEncryptedScript(cfg, st, prev, consumed, ns, succ, expected, nonce,
                            Max(1, ns.absoluteExpiresAt - appNow), tombTtl)
  }

  function UpdatePlan(read: Option<Envelope>, appNow: int, expected: Option<nat>, patch: Patch): Plan<UpdateReply> {
    if read.None? then Answer(UpdateMissing, false)
    else
      var r := Content(read.value);
      if r.status != Active then Answer(UpdateInactive, false)
      else if r.absoluteExpiresAt <= appNow then Answer(UpdateExpired, true)
      else if expected.Some? && r.version != expected.value then Answer(UpdateConflict, false)
      else Submit(UpdatedRecord(r, patch), Max(1, r.absoluteExpiresAt - appNow))
  }

  function UpdateEncrypted(st: Store, j: Jti, expected: Option<nat>, patch: Patch,
                           read: Option<Envelope>, appNow: int): (Store, UpdateReply)
  {
    match UpdatePlan(read, appNow, expected, patch)
    case Answer(reply, drop) => (if drop then Del(st, {j}) else st, reply)
    case Submit(payload, ttl) => UpdateEncryptedScript(st, j, expected, payload, ttl)
  }

  function RevokeEncrypted(st: Store, j: Jti, ttl: int, read: Option<Envelope>): (Store, RevokeReply) {
    if read.None? then (st, RevokeMissing)
    else RevokeScript(st, j, Some(Content(read.value).(status := Revoked)), Max(1, ttl))
  }

  // ---------------------------------------------------------------- the transition system

  datatype Op =
    | Tick(seconds: nat)
    | Reclaim(jti: Jti)
    | ReclaimClaim(jti: Jti)
    | SetSecurityVersion(value: nat)
    | Create(encrypted: bool, jti: Jti, appNow: int, profile: Profile, captured: Option<nat>)
    | Validate(jti: Jti)
    | Touch(jti: Jti, force: bool)
    | TouchEnc(jti: Jti, force: bool, read: Option<Envelope>, appNow: int)
    | Rotate(jti: Jti, succ: Jti, expected: Option<nat>, nonce: Option<string>, appNow: int)
    | RotateEnc(jti: Jti, succ: Jti, expected: Option<nat>, nonce: Option<string>,
                read: Option<Envelope>, appNow: int)
    | Update(jti: Jti, expected: Option<nat>, patch: Patch)
    | UpdateEnc(jti: Jti, expected: Option<nat>, patch: Patch, read: Option<Envelope>, appNow: int)
    | Revoke(jti: Jti, ttl: int)
    | RevokeEnc(jti: Jti, ttl: int, read: Option<Envelope>)
    | Destroy(jti: Jti)
    | EnforceLimit
    | CleanupIndex(jtis: seq<Jti>)
    | DeleteBatch(jtis: seq<Jti>)

  datatype Reply =
    | Silent
    | CreateOut(create: CreateReply)
    | ValidateOut(validate: ValidateReply)
    | TouchOut(touch: TouchReply)
    | RotateOut(rotate: RotateReply)
    | UpdateOut(update: UpdateReply)
    | RevokeOut(revoke: RevokeReply)
    | DestroyOut(existed: bool)
    | JtisOut(jtis: seq<Jti>)
    | EvictedOut(evicted: set<Jti>)

  function CreateStep(cfg: Config, st: Store, encrypted: bool, j: Jti, appNow: int, profile: Profile,
                      captured: Option<nat>): (Store, CreateReply)
  {
    var r := NewRecord(cfg, j, appNow, profile, captured);
    CreateScript(cfg, st, if encrypted then Seal(r) else Plain(r), j, appNow, Max(1, r.absoluteExpiresAt - appNow))
  }

  /** Redis may reclaim a record once its deadline has come, and not before. */
  function ReclaimStep(st: Store, j: Jti): Store {
    if j in st.records && st.records[j].deadline <= st.now then Del(st, {j}) else st
  }

  function Step(cfg: Config, st: Store, op: Op): (Store, Reply) {
    match op
    case Tick(seconds) => (st.(now := st.now + seconds), Silent)
    case Reclaim(j) => (ReclaimStep(st, j), Silent)
    case ReclaimClaim(j) =>
      (if j in st.claims && st.claims[j].deadline <= st.now then st.(claims := st.claims - {j}) else st, Silent)
    case SetSecurityVersion(v) => (st.(securityVersion := Some(v)), Silent)
    case Create(encrypted, j, appNow, profile, captured) =>
      var (st', r) := CreateStep(cfg, st, encrypted, j, appNow, profile, captured);
      (st', CreateOut(r))
    case Validate(j) =>
      var (st', r) := ValidateScript(st, j);
      (st', ValidateOut(r))
    case Touch(j, force) =>
      var (st', r) := TouchScript(cfg, st, j, force);
      (st', TouchOut(r))
    case TouchEnc(j, force, read, appNow) =>
      var (st', r) := TouchEncrypted(cfg, st, j, force, read, appNow);
      (st', TouchOut(r))
    case Rotate(j, succ, expected, nonce, appNow) =>
      var (st', r) := RotateScript(cfg, st, j, Successor(cfg, succ, j, appNow), succ, expected, nonce);
      (st', RotateOut(r))
    case RotateEnc(j, succ, expected, nonce, read, appNow) =>
      var (st', r) := RotateEncrypted(cfg, st, j, succ, expected, nonce, read, appNow);
      (st', RotateOut(r))
    case Update(j, expected, patch) =>
      var (st', r) := UpdateScript(st, j, expected, patch);
      (st', UpdateOut(r))
    case UpdateEnc(j, expected, patch, read, appNow) =>
      var (st', r) := UpdateEncrypted(st, j, expected, patch, read, appNow);
      (st', UpdateOut(r))
    case Revoke(j, ttl) =>
      var (st', r) := RevokeScript(st, j, None, Max(1, ttl));
      (st', RevokeOut(r))
    case RevokeEnc(j, ttl, read) =>
      var (st', r) := RevokeEncrypted(st, j, ttl, read);
      (st', RevokeOut(r))
    case Destroy(j) =>
      var (st', r) := DeleteScript(st, j);
      (st', DestroyOut(r))
    case EnforceLimit =>
      var (st', r) := EnforceLimitScript(cfg, st);
      (st', EvictedOut(r))
    case CleanupIndex(js) =>
      var (st', r) := CleanupIndexScript(st, js);
      (st', JtisOut(r))
    case DeleteBatch(js) =>
      var (st', r) := DeleteBatchScript(st, js);
      (st', JtisOut(r))
  }

  /** The state after a run. A prefix of a run is a run, so this speaks of every state on the way. */
  function Exec(cfg: Config, st: Store, ops: seq<Op>): Store
    decreases |ops|
  {
    if ops == [] then st else Exec(cfg, Step(cfg, st, ops[0]).0, ops[1..])
  }

  lemma {:induction false} ExecAppend(cfg: Config, st: Store, a: seq<Op>, b: seq<Op>)
    ensures Exec(cfg, st, a + b) == Exec(cfg, Exec(cfg, st, a), b)
    decreases |a|
  {
    if a == [] {
      assert a + b == b;
    } else {
      assert (a + b)[0] == a[0] && (a + b)[1..] == a[1..] + b;
      ExecAppend(cfg, Step(cfg, st, a[0]).0, a[1..], b);
    }
  }

  lemma ExecLast(cfg: Config, st: Store, past: seq<Op>, op: Op)
    ensures Exec(cfg, st, past + [op]) == Step(cfg, Exec(cfg, st, past), op).0
  {
    ExecAppend(cfg, st, past, [op]);
    assert [op][1..] == [];
  }

  /** The session ids that a step brings to life. */
  predicate Births(cfg: Config, st: Store, op: Op, k: Jti) {
    var reply := Step(cfg, st, op).1;
    || (reply.CreateOut? && reply.create.Created? && op.Create? && op.jti == k)
    || (reply.RotateOut? && reply.rotate == Rotated(k))
  }

  /** No step of the run creates `k` or rotates into it. */
  predicate NoBirth(cfg: Config, st: Store, ops: seq<Op>, k: Jti)
    decreases |ops|
  {
    ops == [] || (!Births(cfg, st, ops[0], k) && NoBirth(cfg, Step(cfg, st, ops[0]).0, ops[1..], k))
  }
}
