/** What a successful call leaves in the store, field by field, and what it leaves alone. */
module SessionWrites {
  import opened Wrappers
  import opened SessionTypes
  import opened SortedSet
  import opened SessionScripts
  import opened SessionSystem
  import opened SessionRefinement
  import opened SessionAnswers
  import Mortality = SessionMortality

  /** Nothing but record `j` differs. */
  predicate OnlyRecord(st: Store, st': Store, j: Jti) {
    st' == st.(records := st'.records) && st'.records - {j} == st.records - {j}
  }

  // ---------------------------------------------------------------- create

  /** The idle boundary of a record built at `at`, if idle timeouts are on. */
  predicate IdleFrom(cfg: Config, idle: Option<int>, at: int) {
    if cfg.idleTimeout.Some? then idle == Some(at + cfg.idleTimeout.value) else idle.None?
  }

  /** As a create or a rotation builds it: active, at version 1, with the configured lifetime. */
  predicate BornAt(cfg: Config, r: Record, j: Jti, at: int) {
    && r.jti == j && r.status == Active && r.version == 1
    && r.absoluteExpiresAt == at + cfg.ttl && IdleFrom(cfg, r.idleExpiresAt, at)
    && r.rotatedTo.None? && r.consumedAt.None? && r.rotationNonceHash.None?
  }

  /** A front of the index `z`, as large as the surplus but at most one call's worth. */
  ghost predicate EvictsSurplus(cfg: Config, z: map<Jti, int>, evicted: set<Jti>) {
    && IsFront(z, evicted)
    && |evicted| == if 0 < cfg.maxSessionsPerUser < |z|
                    then Min(|z| - cfg.maxSessionsPerUser, cfg.maxEvictionsPerCall) else 0
  }

  lemma SurplusIsFront(cfg: Config, z: map<Jti, int>)
    ensures EvictsSurplus(cfg, z, Surplus(z, cfg.maxSessionsPerUser, cfg.maxEvictionsPerCall))
  {
    if 0 < cfg.maxSessionsPerUser < |z| {
      OldestIsFront(z, Min(|z| - cfg.maxSessionsPerUser, cfg.maxEvictionsPerCall));
    }
  }

  /** `e` joins records and index, then the evicted leave both; nothing else but the claims can differ. */
  predicate Adds(st: Store, st': Store, j: Jti, e: Entry, score: int, evicted: set<Jti>) {
    st' == Store(st.now, st.records[j := e] - evicted, st.index[j := score] - evicted, st'.claims, st.securityVersion)
  }

  lemma EvictedAdds(st: Store, env: Envelope, j: Jti, createdAt: int, ttl: int, evicted: set<Jti>)
    ensures Adds(st, Evict(Zadd(Put(st, j, env, ttl), j, createdAt), evicted), j, Entry(env, st.now + ttl), createdAt,
                 evicted)
  {
  }

  lemma AdmitAdds(cfg: Config, st: Store, env: Envelope, j: Jti, createdAt: int, ttl: int)
    requires Admit(cfg, st, env, j, createdAt, ttl).1.Created?
    ensures var (st', out) := Admit(cfg, st, env, j, createdAt, ttl);
      Adds(st, st', j, Entry(env, st.now + ttl), createdAt, out.evicted)
  {
    EvictedAdds(st, env, j, createdAt, ttl, Admit(cfg, st, env, j, createdAt, ttl).1.evicted);
  }

  lemma ClaimedAdds(cfg: Config, st: Store, st': Store, j: Jti, e: Entry, ttl: int, score: int, evicted: set<Jti>)
    requires Adds(Claimed(cfg, st, j, ttl), st', j, e, score, evicted)
    ensures Adds(st, st', j, e, score, evicted)
  {
  }

  lemma CreateScriptAdds(cfg: Config, st: Store, env: Envelope, j: Jti, createdAt: int, ttl: int)
    requires CreateScript(cfg, st, env, j, createdAt, ttl).1.Created?
    ensures var (st', out) := CreateScript(cfg, st, env, j, createdAt, ttl);
      Adds(st, st', j, Entry(env, st.now + ttl), createdAt, out.evicted)
  {
    AdmitAdds(cfg, Claimed(cfg, st, j, ttl), env, j, createdAt, ttl);
    var (st', out) := CreateScript(cfg, st, env, j, createdAt, ttl);
    ClaimedAdds(cfg, st, st', j, Entry(env, st.now + ttl), ttl, createdAt, out.evicted);
  }

  /** The record of a create, as the service builds it. */
  predicate BornFor(cfg: Config, e: Entry, encrypted: bool, j: Jti, at: int, profile: Profile, captured: Option<nat>) {
    && e.env.Encrypted? == encrypted && !MirrorsDiffer(e.env)
    && var r := Content(e.env);
    && BornAt(cfg, r, j, at) && r.createdAt == r.lastAccessedAt == at && r.rotatedFrom.None?
    && r.profile == profile && r.securityVersion == captured
  }

  lemma NewRecordIsBorn(cfg: Config, encrypted: bool, j: Jti, at: int, profile: Profile, captured: Option<nat>,
                        deadline: int)
    ensures var r := NewRecord(cfg, j, at, profile, captured);
      BornFor(cfg, Entry(if encrypted then Seal(r) else Plain(r), deadline), encrypted, j, at, profile, captured)
  {
  }

  /** A create adds the new session, on either path, and removes nothing but what it reports as evicted. */
  lemma CreateWrites(cfg: Config, st: Store, encrypted: bool, j: Jti, appNow: int, profile: Profile,
                     captured: Option<nat>) returns (e: Entry)
    requires Step(cfg, st, Create(encrypted, j, appNow, profile, captured)).1.create.Created?
    ensures var (st', out) := Step(cfg, st, Create(encrypted, j, appNow, profile, captured));
      Adds(st, st', j, e, appNow, out.create.evicted)
    ensures BornFor(cfg, e, encrypted, j, appNow, profile, captured) && e.deadline == st.now + cfg.ttl
  {
    var r := NewRecord(cfg, j, appNow, profile, captured);
    var ttl := Max(1, r.absoluteExpiresAt - appNow);
    e := Entry(if encrypted then Seal(r) else Plain(r), st.now + ttl);
    NewRecordIsBorn(cfg, encrypted, j, appNow, profile, captured, e.deadline);
    CreateScriptAdds(cfg, st, e.env, j, appNow, ttl);
  }

  /**
   * A created session whose record nothing has changed since validates until the idle timeout or the
   * lifetime is over, and is then refused as idle or as expired: whichever applies, the lifetime first.
   */
  lemma UntouchedLifetime(cfg: Config, st: Store, encrypted: bool, j: Jti, appNow: int, profile: Profile,
                          captured: Option<nat>, late: Store)
    requires var (st', out) := Step(cfg, st, Create(encrypted, j, appNow, profile, captured));
      && out.create.Created? && j in st'.records
      && j in late.records && late.records[j] == st'.records[j]
    ensures var verdict := VerdictOf(Step(cfg, late, Validate(j)).1.validate);
      var over := appNow + cfg.ttl <= late.now;
      var idle := cfg.idleTimeout.Some? && appNow + cfg.idleTimeout.value <= late.now;
      var outdated := late.securityVersion.Some? && captured != late.securityVersion;
      && (verdict == Expired <==> over)
      && (verdict == IdleTimeout <==> !over && idle)
      && (verdict == RevokedSession <==> !over && !idle && outdated)
      && (verdict.Valid? <==> !over && !idle && !outdated)
      && (verdict.Valid? ==> verdict.session.jti == j && verdict.session.profile == profile)
  {
    var e := CreateWrites(cfg, st, encrypted, j, appNow, profile, captured);
    Verdicts(cfg, late, j);
  }

  /** Those are a front of the index that has the new member. */
  lemma CreateEvicts(cfg: Config, st: Store, encrypted: bool, j: Jti, appNow: int, profile: Profile,
                     captured: Option<nat>)
    requires Step(cfg, st, Create(encrypted, j, appNow, profile, captured)).1.create.Created?
    ensures EvictsSurplus(cfg, st.index[j := appNow],
                          Step(cfg, st, Create(encrypted, j, appNow, profile, captured)).1.create.evicted)
  {
    SurplusIsFront(cfg, st.index[j := appNow]);
  }

  lemma EnforceLimitEvicts(cfg: Config, st: Store)
    ensures var (st', out) := Step(cfg, st, EnforceLimit);
      && EvictsSurplus(cfg, st.index, out.evicted)
      && st' == st.(records := st.records - out.evicted, index := st.index - out.evicted)
  {
    SurplusIsFront(cfg, st.index);
  }

  // ---------------------------------------------------------------- touch

  /** Activity is renewed, and the idle boundary moved, but never past the absolute one. */
  predicate RenewedAt(cfg: Config, before: Record, after: Record, at: int) {
    && after == before.(lastAccessedAt := at, idleExpiresAt := after.idleExpiresAt)
    && if cfg.idleTimeout.Some?
       then after.idleExpiresAt == Some(Min(at + cfg.idleTimeout.value, before.absoluteExpiresAt))
       else after.idleExpiresAt == before.idleExpiresAt
  }

  lemma TouchWrites(cfg: Config, st: Store, j: Jti, force: bool)
    requires Step(cfg, st, Touch(j, force)).1 == TouchOut(Touched)
    ensures var st' := Step(cfg, st, Touch(j, force)).0;
      && OnlyRecord(st, st', j) && StoredPlain(st, j) && StoredPlain(st', j)
      && RenewedAt(cfg, st.records[j].env.s, st'.records[j].env.s, st.now)
      && st'.records[j].deadline == st.records[j].env.s.absoluteExpiresAt
  {
  }

  /** The payload is the renewed read; the mirrors take activity and idle boundary from it and keep the rest. */
  lemma TouchEncWrites(cfg: Config, st: Store, j: Jti, force: bool, read: Envelope, appNow: int)
    requires Step(cfg, st, TouchEnc(j, force, Some(read), appNow)).1 == TouchOut(Touched)
    ensures var st' := Step(cfg, st, TouchEnc(j, force, Some(read), appNow)).0;
      && OnlyRecord(st, st', j) && StoredEncrypted(st, j) && StoredEncrypted(st', j)
      && var env := st'.records[j].env;
      && RenewedAt(cfg, Content(read), env.payload, appNow)
      && env.header == st.records[j].env.header.(la := appNow, idle := env.payload.idleExpiresAt)
      && st'.records[j].deadline == st.now + Content(read).absoluteExpiresAt - appNow
  {
  }

  // ---------------------------------------------------------------- update

  /** A field of the patch is written, null included; a field that it leaves out stays. */
  predicate Overlaid(after: Option<string>, patch: Option<Option<string>>, before: Option<string>) {
    (patch.Some? ==> after == patch.value) && (patch.None? ==> after == before)
  }

  predicate PatchedFrom(before: Record, after: Record, patch: Patch) {
    && Overlaid(after.profile.deviceId, patch.deviceId, before.profile.deviceId)
    && Overlaid(after.profile.ipAddress, patch.ipAddress, before.profile.ipAddress)
    && Overlaid(after.profile.userAgent, patch.userAgent, before.profile.userAgent)
    && Overlaid(after.profile.metadata, patch.metadata, before.profile.metadata)
    && after.version == before.version + 1
    && after == before.(profile := after.profile, version := after.version)
  }

  lemma UpdateWrites(cfg: Config, st: Store, j: Jti, expected: Option<nat>, patch: Patch)
    requires Step(cfg, st, Update(j, expected, patch)).1.update.Updated?
    ensures var (st', out) := Step(cfg, st, Update(j, expected, patch));
      && OnlyRecord(st, st', j) && StoredPlain(st, j) && StoredPlain(st', j)
      && PatchedFrom(st.records[j].env.s, st'.records[j].env.s, patch)
      && out.update.version == st'.records[j].env.s.version
      && st'.records[j].deadline == st'.records[j].env.s.absoluteExpiresAt
  {
  }

  /** The two patches can be applied in either order: where both have a field, they agree on it. */
  predicate Compatible(p: Patch, q: Patch) {
    && (p.deviceId.Some? && q.deviceId.Some? ==> p.deviceId == q.deviceId)
    && (p.ipAddress.Some? && q.ipAddress.Some? ==> p.ipAddress == q.ipAddress)
    && (p.userAgent.Some? && q.userAgent.Some? ==> p.userAgent == q.userAgent)
    && (p.metadata.Some? && q.metadata.Some? ==> p.metadata == q.metadata)
  }

  /** The field after two updates, the later patch first. */
  function Later(q: Option<Option<string>>, p: Option<Option<string>>, before: Option<string>): Option<string> {
    if q.Some? then q.value else if p.Some? then p.value else before
  }

  lemma UpdateTwice(cfg: Config, st: Store, j: Jti, p: Patch, q: Patch) returns (r: Record)
    requires Step(cfg, st, Update(j, None, p)).1.update.Updated?
    ensures StoredPlain(st, j)
    ensures var s := st.records[j].env.s;
      && Step(cfg, Step(cfg, st, Update(j, None, p)).0, Update(j, None, q)).0 ==
         st.(records := st.records[j := Entry(Plain(r), s.absoluteExpiresAt)])
      && r == s.(version := s.version + 2, profile :=
                   Profile(Later(q.deviceId, p.deviceId, s.profile.deviceId),
                           Later(q.ipAddress, p.ipAddress, s.profile.ipAddress),
                           Later(q.userAgent, p.userAgent, s.profile.userAgent),
                           Later(q.metadata, p.metadata, s.profile.metadata)))
  {
    var mid := Step(cfg, st, Update(j, None, p)).0;
    UpdateWrites(cfg, st, j, None, p);
    UpdateAnswers(cfg, mid, j, None, q);
    UpdateWrites(cfg, mid, j, None, q);
    var end := Step(cfg, mid, Update(j, None, q)).0;
    r := end.records[j].env.s;
    assert end.records == st.records[j := end.records[j]];
  }

  /** Two updates of a session leave the same state in either order exactly if their patches are compatible. */
  lemma UpdatesCommute(cfg: Config, st: Store, j: Jti, p: Patch, q: Patch)
    requires Step(cfg, st, Update(j, None, p)).1.update.Updated?
    ensures var (pq, qp) := (Step(cfg, Step(cfg, st, Update(j, None, p)).0, Update(j, None, q)).0,
                             Step(cfg, Step(cfg, st, Update(j, None, q)).0, Update(j, None, p)).0);
      pq == qp <==> Compatible(p, q)
  {
    UpdateWrites(cfg, st, j, None, p);
    UpdateAnswers(cfg, st, j, None, p);
    UpdateAnswers(cfg, st, j, None, q);
    var a := UpdateTwice(cfg, st, j, p, q);
    var b := UpdateTwice(cfg, st, j, q, p);
    assert Step(cfg, Step(cfg, st, Update(j, None, p)).0, Update(j, None, q)).0.records[j].env.s == a;
    assert Step(cfg, Step(cfg, st, Update(j, None, q)).0, Update(j, None, p)).0.records[j].env.s == b;
  }

  /** The payload is the patched read; boundary and rotation mirrors are kept, the others taken from it. */
  lemma UpdateEncWrites(cfg: Config, st: Store, j: Jti, expected: Option<nat>, patch: Patch, read: Envelope,
                        appNow: int)
    requires Step(cfg, st, UpdateEnc(j, expected, patch, Some(read), appNow)).1.update.Updated?
    ensures var (st', out) := Step(cfg, st, UpdateEnc(j, expected, patch, Some(read), appNow));
      && OnlyRecord(st, st', j) && StoredEncrypted(st, j) && StoredEncrypted(st', j)
      && var env, h := st'.records[j].env, st.records[j].env.header;
      && PatchedFrom(Content(read), env.payload, patch)
      && out.update.version == env.payload.version == env.header.ver
      && env.header.st == Active && env.header.la == Content(read).lastAccessedAt
      && env.header.idle == Content(read).idleExpiresAt
      && env.header.exp == h.exp && env.header.rn == h.rn && env.header.rj == h.rj
      && st'.records[j].deadline == st.now + Content(read).absoluteExpiresAt - appNow
  {
  }

  // ---------------------------------------------------------------- revoke

  /** The record stays, revoked in mirror and payload and otherwise as it was, until the TTL of the call. */
  lemma RevokeWrites(cfg: Config, st: Store, op: Op, j: Jti)
    requires (op.Revoke? || op.RevokeEnc?) && op.jti == j && Step(cfg, st, op).1 == RevokeOut(RevokeDone)
    ensures var st' := Step(cfg, st, op).0;
      && OnlyRecord(st, st', j) && j in st.records && j in st'.records
      && var env, env' := st.records[j].env, st'.records[j].env;
      && (env'.Plain? <==> env.Plain?)
      && Mirror(env').st == Revoked && Mirror(env') == Mirror(env).(st := Revoked)
      && (op.RevokeEnc? ==> op.read.Some?) && (op.Revoke? ==> env.Plain?)
      && Content(env') == (if env.Plain? then env.s else Content(op.read.value)).(status := Revoked)
      && st'.records[j].deadline == st.now + Max(1, op.ttl)
  {
  }

  /** No validation hands a revoked session out before that id is born anew, whatever runs in between. */
  lemma RevokedStaysOut(cfg: Config, st: Store, revoke: Op, ops: seq<Op>, j: Jti)
    requires (revoke.Revoke? || revoke.RevokeEnc?) && revoke.jti == j
    requires Step(cfg, st, revoke).1 == RevokeOut(RevokeDone)
    requires NoBirth(cfg, Step(cfg, st, revoke).0, ops, j)
    ensures var late := Exec(cfg, Step(cfg, st, revoke).0, ops);
      var out := Step(cfg, late, Validate(j)).1;
      && !out.validate.ValidateRead? && !VerdictOf(out.validate).Valid?
  {
    RevokeWrites(cfg, st, revoke, j);
    var after := Step(cfg, st, revoke).0;
    Mortality.EndIsFinal(cfg, after, ops, j);
    Mortality.ValidateMeansLive(Exec(cfg, after, ops), j);
  }

  // ---------------------------------------------------------------- rotate

  /** The tombstone: consumed for `succ` at `at`, with the nonce of the call. */
  predicate ConsumedFor(before: Record, after: Record, succ: Jti, nonce: Option<string>, at: int) {
    && after.status == Consumed && after.consumedAt == Some(at)
    && after.rotatedTo == Some(succ) && after.rotationNonceHash == nonce
    && after == before.(status := Consumed, consumedAt := after.consumedAt, rotatedTo := after.rotatedTo,
                        rotationNonceHash := after.rotationNonceHash)
  }

  /** What a rotation does to index and other records, and that the old record is a tombstone or gone. */
  predicate Rotates(cfg: Config, st: Store, st': Store, j: Jti, succ: Jti) {
    && st'.now == st.now && st'.claims == st.claims && st'.securityVersion == st.securityVersion
    && st'.index == (st.index - {j})[succ := st.now]
    && st'.records - {j, succ} == st.records - {j, succ}
    && j in st.records && succ in st'.records && j != succ
    && (j in st'.records <==> cfg.retainConsumedTombstones)
  }

  lemma SwapRotates(cfg: Config, st: Store, prev: Jti, tomb: Envelope, tombTtl: int,
                    succ: Jti, next: Envelope, nextTtl: int)
    requires prev in st.records && succ !in st.records
    ensures Rotates(cfg, st, Swap(cfg, st, prev, tomb, tombTtl, succ, next, nextTtl), prev, succ)
  {
  }

  lemma RotateEncSwaps(cfg: Config, st: Store, op: Op)
    requires op.RotateEnc? && Step(cfg, st, op).1.rotate.Rotated?
    ensures Rotates(cfg, st, Step(cfg, st, op).0, op.jti, op.succ)
  {
    var consumed, ns := RotatePlan(op.read, op.appNow, op.succ, op.expected, op.nonce),
                        Successor(cfg, op.succ, op.jti, op.appNow);
    var h := Mirror(st.records[op.jti].env);
    SwapRotates(cfg, st, op.jti, Encrypted(TombHeader(h, op.succ, op.nonce), consumed.payload), Max(1, consumed.ttl),
                op.succ, Encrypted(SuccessorHeader(EncryptedHeaderOf(ns), st.now), ns),
                Max(1, Max(1, ns.absoluteExpiresAt - op.appNow)));
  }

  lemma RotatePlainSwaps(cfg: Config, st: Store, op: Op)
    requires op.Rotate? && Step(cfg, st, op).1.rotate.Rotated?
    ensures Rotates(cfg, st, Step(cfg, st, op).0, op.jti, op.succ)
  {
    var s, ns := Content(st.records[op.jti].env), Successor(cfg, op.succ, op.jti, op.appNow);
    SwapRotates(cfg, st, op.jti, Plain(ConsumedRecord(s, st.now, op.succ, op.nonce)),
                Max(1, s.absoluteExpiresAt - st.now),
                op.succ, Plain(SuccessorRecord(ns, s.jti, st.now)), Max(1, ns.absoluteExpiresAt - st.now));
  }

  lemma RotateSwaps(cfg: Config, st: Store, op: Op)
    requires (op.Rotate? || op.RotateEnc?) && Step(cfg, st, op).1.rotate.Rotated?
    ensures Rotates(cfg, st, Step(cfg, st, op).0, op.jti, op.succ)
  {
    if op.Rotate? {
      RotatePlainSwaps(cfg, st, op);
    } else {
      RotateEncSwaps(cfg, st, op);
    }
  }

  lemma RotateWrites(cfg: Config, st: Store, j: Jti, succ: Jti, expected: Option<nat>, nonce: Option<string>,
                     appNow: int)
    requires Step(cfg, st, Rotate(j, succ, expected, nonce, appNow)).1.rotate.Rotated?
    ensures var st' := Step(cfg, st, Rotate(j, succ, expected, nonce, appNow)).0;
      && StoredPlain(st, j) && StoredPlain(st', succ)
      && var s, ns := st.records[j].env.s, st'.records[succ].env.s;
      && BornAt(cfg, ns, succ, appNow) && ns.createdAt == ns.lastAccessedAt == st.now
      && ns.rotatedFrom == Some(s.jti) && ns.securityVersion.None? && ns.profile == Mortality.NO_PROFILE
      && st'.records[succ].deadline == Max(st.now + 1, appNow + cfg.ttl)
      && (cfg.retainConsumedTombstones ==>
            && StoredPlain(st', j) && ConsumedFor(s, st'.records[j].env.s, succ, nonce, st.now)
            && st'.records[j].deadline == s.absoluteExpiresAt)
  {
  }

  lemma RotateEncSuccessor(cfg: Config, st: Store, j: Jti, succ: Jti, expected: Option<nat>, nonce: Option<string>,
                           read: Envelope, appNow: int)
    requires Step(cfg, st, RotateEnc(j, succ, expected, nonce, Some(read), appNow)).1.rotate.Rotated?
    ensures var st' := Step(cfg, st, RotateEnc(j, succ, expected, nonce, Some(read), appNow)).0;
      && StoredEncrypted(st, j) && StoredEncrypted(st', succ)
      && var next := st'.records[succ].env;
      && BornAt(cfg, next.payload, succ, appNow) && next.payload.createdAt == next.payload.lastAccessedAt == appNow
      && next.payload.rotatedFrom == Some(j) && next.payload.securityVersion.None?
      && next.payload.profile == Mortality.NO_PROFILE
      && next.header == Header(Active, 1, st.now, next.payload.idleExpiresAt, appNow + cfg.ttl, None, None)
      && st'.records[succ].deadline == st.now + cfg.ttl
  {
  }

  lemma RotateEncTombstone(cfg: Config, st: Store, j: Jti, succ: Jti, expected: Option<nat>, nonce: Option<string>,
                           read: Envelope, appNow: int)
    requires cfg.retainConsumedTombstones
    requires Step(cfg, st, RotateEnc(j, succ, expected, nonce, Some(read), appNow)).1.rotate.Rotated?
    ensures var st' := Step(cfg, st, RotateEnc(j, succ, expected, nonce, Some(read), appNow)).0;
      && StoredEncrypted(st, j) && StoredEncrypted(st', j)
      && var tomb := st'.records[j].env;
      && ConsumedFor(Content(read), tomb.payload, succ, nonce, appNow)
      && tomb.header == st.records[j].env.header.(st := Consumed, rn := nonce, rj := Some(succ))
      && st'.records[j].deadline == st.now + Content(read).absoluteExpiresAt - appNow
  {
  }

  /**
   * A successor that nothing has changed since validates exactly before its two boundaries, if the clocks
   * agreed at an encrypted rotation, and if the user has no security version: a successor never carries one,
   * so once a version is set no rotated session validates, however new.
   */
  lemma SuccessorLifetime(cfg: Config, st: Store, op: Op, late: Store)
    requires (op.Rotate? || op.RotateEnc?) && Step(cfg, st, op).1.rotate.Rotated?
    requires var st' := Step(cfg, st, op).0;
      op.succ in st'.records && op.succ in late.records && late.records[op.succ] == st'.records[op.succ]
    ensures var verdict := VerdictOf(Step(cfg, late, Validate(op.succ)).1.validate);
      verdict.Valid? <==>
        && late.now < op.appNow + cfg.ttl
        && (cfg.idleTimeout.Some? ==> late.now < op.appNow + cfg.idleTimeout.value)
        && (op.RotateEnc? ==> op.appNow == st.now)
        && late.securityVersion.None?
  {
    if op.Rotate? {
      RotateWrites(cfg, st, op.jti, op.succ, op.expected, op.nonce, op.appNow);
    } else {
      RotateEncSuccessor(cfg, st, op.jti, op.succ, op.expected, op.nonce, op.read.value, op.appNow);
    }
    Verdicts(cfg, late, op.succ);
  }
}
