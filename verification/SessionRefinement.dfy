/**
 * Encrypted sessions refine plain ones: when nothing runs between an encrypted read and its script
 * and the clocks agree, both give the same answers and, decrypted, the same state.
 */
module SessionRefinement {
  import opened Wrappers
  import opened SessionTypes
  import opened SortedSet
  import opened SessionScripts
  import opened SessionSystem
  import opened SessionEvolution
  import opened SessionBoundaries

  // ---------------------------------------------------------------- the abstraction

  function DecryptedEntry(e: Entry): Entry {
    Entry(Plain(Content(e.env)), e.deadline)
  }

  function DecryptedRecords(records: map<Jti, Entry>): map<Jti, Entry> {
    map k | k in records :: DecryptedEntry(records[k])
  }

  /** The state that the plain path would hold. */
  function Decrypted(st: Store): Store {
    st.(records := DecryptedRecords(st.records))
  }

  predicate SealedEntry(e: Entry, k: Jti, now: int) {
    && e.env == Seal(Content(e.env))
    && var r := Content(e.env);
    && r.jti == k && r.lastAccessedAt <= now
    && (r.status == Consumed ==> r.rotatedTo.Some?)
  }

  /** Every record is encrypted under mirrors equal to those of its payload. */
  predicate Sealed(st: Store) {
    forall k | k in st.records :: SealedEntry(st.records[k], k, st.now)
  }

  /** The encrypted call that a client makes where a plain client makes `op`. */
  function EncryptedCall(st: Store, op: Op): Op {
    match op
    case Create(_, j, appNow, profile, captured) => Create(true, j, appNow, profile, captured)
    case Touch(j, force) => TouchEnc(j, force, ReadOf(st, j), st.now)
    case Rotate(j, succ, expected, nonce, appNow) => RotateEnc(j, succ, expected, nonce, ReadOf(st, j), appNow)
    case Update(j, expected, patch) => UpdateEnc(j, expected, patch, ReadOf(st, j), st.now)
    case Revoke(j, ttl) => RevokeEnc(j, ttl, ReadOf(st, j))
    case _ => op
  }

  function ReadOf(st: Store, j: Jti): Option<Envelope> {
    if j in st.records then Some(st.records[j].env) else None
  }

  // ---------------------------------------------------------------- what a caller sees

  datatype Verdict = Valid(session: Record) | NotFound | Expired | IdleTimeout | RevokedSession | Invalid

  /** The decision order of the service's validate, after the script. */
  function VerdictOf(reply: ValidateReply): Verdict {
    match reply
    case ValidateMissing => NotFound
    case ValidateInactive(status) => if status == Revoked then RevokedSession else Invalid
    case ValidateExpired => Expired
    case ValidateIdle => IdleTimeout
    case ValidateSecurity => RevokedSession
    case ValidateRead(Plain(s), _) => Valid(s)
    case ValidateRead(Encrypted(header, payload), current) =>
      if header != EncryptedHeaderOf(payload) then Invalid
      else if current.Some? && payload.securityVersion != current then RevokedSession
      else Valid(payload)
  }

  datatype Seen = Judged(verdict: Verdict) | Answered(reply: Reply)

  function View(reply: Reply): Seen {
    match reply
    case ValidateOut(v) => Judged(VerdictOf(v))
    case _ => Answered(reply)
  }

  // ---------------------------------------------------------------- the two exceptions

  predicate RotationExpires(st: Store, j: Jti) {
    j in st.records && var h := Mirror(st.records[j].env); h.st == Active && h.exp <= st.now
  }

  /** The application deletes an expired record without its index member; rotate.lua removes both. */
  predicate LeavesStaleMember(st: Store, op: Op) {
    op.Rotate? && RotationExpires(st, op.jti) && op.jti in st.index
  }

  /** The application answers a replay on a record that was consumed and then revoked; rotate.lua refuses. */
  predicate ReplaysRevoked(st: Store, op: Op) {
    && op.Rotate? && op.jti in st.records
    && var h := Mirror(st.records[op.jti].env); h.st == Revoked && op.nonce.Some? && h.rn == op.nonce && h.rj.Some?
  }

  // ---------------------------------------------------------------- one step

  lemma RecordsPut(records: map<Jti, Entry>, j: Jti, e: Entry)
    ensures DecryptedRecords(records[j := e]) == DecryptedRecords(records)[j := DecryptedEntry(e)]
  {
  }

  lemma RecordsDrop(records: map<Jti, Entry>, js: set<Jti>)
    ensures DecryptedRecords(records - js) == DecryptedRecords(records) - js
  {
  }

  lemma PutCommutes(st: Store, j: Jti, env: Envelope, ttl: int)
    ensures Decrypted(Put(st, j, env, ttl)) == Put(Decrypted(st), j, Plain(Content(env)), ttl)
  {
    RecordsPut(st.records, j, Entry(env, st.now + ttl));
  }

  lemma DelCommutes(st: Store, js: set<Jti>)
    ensures Decrypted(Del(st, js)) == Del(Decrypted(st), js)
  {
    RecordsDrop(st.records, js);
  }

  lemma {:induction false} StaleCommutes(st: Store, js: seq<Jti>)
    ensures Stale(Decrypted(st).records, js) == Stale(st.records, js)
  {
    if js != [] {
      StaleCommutes(st, js[1..]);
    }
  }

  lemma {:induction false} DeleteBatchCommutes(st: Store, js: seq<Jti>)
    ensures DeleteBatchScript(Decrypted(st), js) ==
            (Decrypted(DeleteBatchScript(st, js).0), DeleteBatchScript(st, js).1)
    decreases |js|
  {
    if js != [] {
      DelCommutes(st, {js[0]});
      DeleteBatchCommutes(Zrem(Del(st, {js[0]}), {js[0]}), js[1..]);
    }
  }

  lemma SealedPut(st: Store, j: Jti, r: Record, ttl: int)
    requires Sealed(st) && r.jti == j && r.lastAccessedAt <= st.now && (r.status == Consumed ==> r.rotatedTo.Some?)
    ensures Sealed(Put(st, j, Seal(r), ttl))
    ensures Decrypted(Put(st, j, Seal(r), ttl)) == Put(Decrypted(st), j, Plain(r), ttl)
  {
    PutCommutes(st, j, Seal(r), ttl);
  }

  lemma SealedDel(st: Store, js: set<Jti>)
    requires Sealed(st)
    ensures Sealed(Del(st, js)) && Decrypted(Del(st, js)) == Del(Decrypted(st), js)
  {
    DelCommutes(st, js);
  }

  lemma AdmitSimulates(cfg: Config, st: Store, r: Record, j: Jti, createdAt: int, ttl: int)
    requires Sealed(st) && r.jti == j && r.lastAccessedAt <= st.now && r.status == Active
    ensures var (enc, reply) := Admit(cfg, st, Seal(r), j, createdAt, ttl);
      Sealed(enc) && Admit(cfg, Decrypted(st), Plain(r), j, createdAt, ttl) == (Decrypted(enc), reply)
  {
    SealedPut(st, j, r, ttl);
    var added := Zadd(Put(st, j, Seal(r), ttl), j, createdAt);
    assert Decrypted(added) == Zadd(Put(Decrypted(st), j, Plain(r), ttl), j, createdAt);
    SealedDel(added, Surplus(st.index[j := createdAt], cfg.maxSessionsPerUser, cfg.maxEvictionsPerCall));
  }

  lemma CreateSimulates(cfg: Config, st: Store, r: Record, j: Jti, createdAt: int, ttl: int)
    requires Sealed(st) && r.jti == j && r.lastAccessedAt <= st.now && r.status == Active
    ensures var (enc, reply) := CreateScript(cfg, st, Seal(r), j, createdAt, ttl);
      Sealed(enc) && CreateScript(cfg, Decrypted(st), Plain(r), j, createdAt, ttl) == (Decrypted(enc), reply)
  {
    assert Decrypted(Claimed(cfg, st, j, ttl)) == Claimed(cfg, Decrypted(st), j, ttl);
    AdmitSimulates(cfg, Claimed(cfg, st, j, ttl), r, j, createdAt, ttl);
  }

  /** The touches that reach the write, on both paths. */
  predicate TouchGate(cfg: Config, r: Record, now: int, force: bool) {
    LiveAt(EncryptedHeaderOf(r), now) && (force || now - r.lastAccessedAt >= cfg.touchInterval)
  }

  lemma TouchWriteSimulates(cfg: Config, st: Store, j: Jti, force: bool)
    requires Sealed(st) && j in st.records && TouchGate(cfg, Content(st.records[j].env), st.now, force)
    ensures var (enc, reply) := TouchEncrypted(cfg, st, j, force, ReadOf(st, j), st.now);
      Sealed(enc) && TouchScript(cfg, Decrypted(st), j, force) == (Decrypted(enc), reply)
  {
    assert SealedEntry(st.records[j], j, st.now);
    var r := Content(st.records[j].env);
    var payload, ttl := TouchedRecord(cfg, r, st.now), Max(1, r.absoluteExpiresAt - st.now);
    SealedPut(st, j, payload, ttl);
    assert TouchPlan(cfg, ReadOf(st, j), st.now, force) == Submit(payload, ttl);
    assert EncryptedHeaderOf(payload) ==
           EncryptedHeaderOf(r).(la := payload.lastAccessedAt, idle := payload.idleExpiresAt);
  }

  lemma TouchRefusalSimulates(cfg: Config, st: Store, j: Jti, force: bool)
    requires Sealed(st)
    requires j in st.records ==> !TouchGate(cfg, Content(st.records[j].env), st.now, force)
    ensures var (enc, reply) := TouchEncrypted(cfg, st, j, force, ReadOf(st, j), st.now);
      Sealed(enc) && TouchScript(cfg, Decrypted(st), j, force) == (Decrypted(enc), reply)
  {
    if j in st.records {
      assert SealedEntry(st.records[j], j, st.now);
      SealedDel(st, {j});
    }
  }

  lemma TouchSimulates(cfg: Config, st: Store, j: Jti, force: bool)
    requires Sealed(st)
    ensures var (enc, reply) := TouchEncrypted(cfg, st, j, force, ReadOf(st, j), st.now);
      Sealed(enc) && TouchScript(cfg, Decrypted(st), j, force) == (Decrypted(enc), reply)
  {
    if j in st.records && TouchGate(cfg, Content(st.records[j].env), st.now, force) {
      TouchWriteSimulates(cfg, st, j, force);
    } else {
      TouchRefusalSimulates(cfg, st, j, force);
    }
  }

  lemma UpdateSimulates(st: Store, j: Jti, expected: Option<nat>, patch: Patch)
    requires Sealed(st)
    ensures var (enc, reply) := UpdateEncrypted(st, j, expected, patch, ReadOf(st, j), st.now);
      Sealed(enc) && UpdateScript(Decrypted(st), j, expected, patch) == (Decrypted(enc), reply)
  {
    if j in st.records {
      assert SealedEntry(st.records[j], j, st.now);
      var r := Content(st.records[j].env);
      var ttl := Max(1, r.absoluteExpiresAt - st.now);
      SealedDel(st, {j});
      SealedPut(st, j, UpdatedRecord(r, patch), ttl);
      assert EncryptedHeaderOf(UpdatedRecord(r, patch)) == EncryptedHeaderOf(r).(ver := r.version + 1);
      assert UpdatePlan(ReadOf(st, j), st.now, expected, patch).Submit? ==>
             UpdatePlan(ReadOf(st, j), st.now, expected, patch) == Submit(UpdatedRecord(r, patch), ttl);
    }
  }

  lemma RevokeSimulates(st: Store, j: Jti, ttl: int)
    requires Sealed(st)
    ensures var (enc, reply) := RevokeEncrypted(st, j, ttl, ReadOf(st, j));
      Sealed(enc) && RevokeScript(Decrypted(st), j, None, Max(1, ttl)) == (Decrypted(enc), reply)
  {
    if j in st.records {
      assert SealedEntry(st.records[j], j, st.now);
      SealedPut(st, j, Content(st.records[j].env).(status := Revoked), Max(1, ttl));
    }
  }

  lemma ValidateSimulates(st: Store, j: Jti)
    requires Sealed(st)
    ensures var ((enc, reply), (plain, plainReply)) := (ValidateScript(st, j), ValidateScript(Decrypted(st), j));
      Sealed(enc) && plain == Decrypted(enc) && VerdictOf(plainReply) == VerdictOf(reply)
  {
    if j in st.records {
      assert SealedEntry(st.records[j], j, st.now);
      SealedDel(st, {j});
    }
  }

  lemma SwapSimulates(cfg: Config, st: Store, j: Jti, tomb: Record, tombTtl: int, succ: Jti, ns: Record, nextTtl: int)
    requires Sealed(st) && tomb.jti == j && tomb.lastAccessedAt <= st.now && tomb.rotatedTo.Some?
    requires ns.jti == succ && ns.lastAccessedAt <= st.now && ns.status == Active
    ensures var enc := Swap(cfg, st, j, Seal(tomb), tombTtl, succ, Seal(ns), nextTtl);
      Sealed(enc) && Decrypted(enc) == Swap(cfg, Decrypted(st), j, Plain(tomb), tombTtl, succ, Plain(ns), nextTtl)
  {
    SealedPut(st, j, tomb, tombTtl);
    SealedDel(st, {j});
    SealedPut(if cfg.retainConsumedTombstones then Put(st, j, Seal(tomb), tombTtl) else Del(st, {j}),
              succ, ns, nextTtl);
  }

  /** What the rotation of `r` to `succ` leaves: the tombstone and the successor, with their TTLs. */
  datatype Pair = Pair(tomb: Record, tombTtl: int, next: Record, nextTtl: int)

  function RotationPair(cfg: Config, r: Record, j: Jti, succ: Jti, nonce: Option<string>, now: int): Pair {
    var ns := Successor(cfg, succ, j, now);
    Pair(ConsumedRecord(r, now, succ, nonce), Max(1, r.absoluteExpiresAt - now), ns, Max(1, ns.absoluteExpiresAt - now))
  }

  lemma EncryptedRotationSwaps(cfg: Config, st: Store, j: Jti, succ: Jti, expected: Option<nat>,
                               nonce: Option<string>, p: Pair)
    requires Sealed(st) && j in st.records && p == RotationPair(cfg, Content(st.records[j].env), j, succ, nonce, st.now)
    requires RotateGate(st, Mirror(st.records[j].env), succ, expected, nonce).None?
    ensures RotateEncrypted(cfg, st, j, succ, expected, nonce, ReadOf(st, j), st.now) ==
            (Swap(cfg, st, j, Seal(p.tomb), p.tombTtl, succ, Seal(p.next), p.nextTtl), Rotated(succ))
  {
    assert SealedEntry(st.records[j], j, st.now);
    var h := Mirror(st.records[j].env);
    assert Encrypted(TombHeader(h, succ, nonce), p.tomb) == Seal(p.tomb);
    assert Encrypted(SuccessorHeader(EncryptedHeaderOf(p.next), st.now), p.next) == Seal(p.next);
    assert RotatePlan(ReadOf(st, j), st.now, succ, expected, nonce) == Submit(p.tomb, p.tombTtl);
  }

  lemma PlainRotationSwaps(cfg: Config, st: Store, j: Jti, succ: Jti, expected: Option<nat>,
                           nonce: Option<string>, p: Pair)
    requires Sealed(st) && j in st.records && p == RotationPair(cfg, Content(st.records[j].env), j, succ, nonce, st.now)
    requires RotateGate(st, Mirror(st.records[j].env), succ, expected, nonce).None?
    ensures RotateScript(cfg, Decrypted(st), j, Successor(cfg, succ, j, st.now), succ, expected, nonce) ==
            (Swap(cfg, Decrypted(st), j, Plain(p.tomb), p.tombTtl, succ, Plain(p.next), p.nextTtl), Rotated(succ))
  {
    assert SealedEntry(st.records[j], j, st.now);
    assert SuccessorRecord(p.next, j, st.now) == p.next;
  }

  /** The rotations that the gate lets through. */
  lemma RotationSimulates(cfg: Config, st: Store, j: Jti, succ: Jti, expected: Option<nat>, nonce: Option<string>)
    requires Sealed(st) && j in st.records
    requires RotateGate(st, Mirror(st.records[j].env), succ, expected, nonce).None?
    ensures var (enc, reply) := RotateEncrypted(cfg, st, j, succ, expected, nonce, ReadOf(st, j), st.now);
      && Sealed(enc)
      && RotateScript(cfg, Decrypted(st), j, Successor(cfg, succ, j, st.now), succ, expected, nonce) ==
         (Decrypted(enc), reply)
  {
    assert SealedEntry(st.records[j], j, st.now);
    var p := RotationPair(cfg, Content(st.records[j].env), j, succ, nonce, st.now);
    EncryptedRotationSwaps(cfg, st, j, succ, expected, nonce, p);
    PlainRotationSwaps(cfg, st, j, succ, expected, nonce, p);
    SwapSimulates(cfg, st, j, p.tomb, p.tombTtl, succ, p.next, p.nextTtl);
  }

  /** Of an expired session: the application deletes the record, rotate.lua the index member too. */
  lemma ExpirySimulates(cfg: Config, st: Store, j: Jti, succ: Jti, expected: Option<nat>, nonce: Option<string>)
    requires Sealed(st) && RotationExpires(st, j)
    ensures var (enc, reply) := RotateEncrypted(cfg, st, j, succ, expected, nonce, ReadOf(st, j), st.now);
      && (enc, reply) == (Del(st, {j}), RotateExpired) && Sealed(enc)
      && RotateScript(cfg, Decrypted(st), j, Successor(cfg, succ, j, st.now), succ, expected, nonce) ==
         (Zrem(Decrypted(enc), {j}), RotateExpired)
  {
    assert SealedEntry(st.records[j], j, st.now);
    SealedDel(st, {j});
  }

  /** Of a session that is missing, not active, at another version, or whose successor exists: no change. */
  lemma OtherRefusalSimulates(cfg: Config, st: Store, j: Jti, succ: Jti, expected: Option<nat>, nonce: Option<string>)
    requires Sealed(st) && !RotationExpires(st, j)
    requires j in st.records ==> RotateGate(st, Mirror(st.records[j].env), succ, expected, nonce).Some?
    ensures var (enc, reply) := RotateEncrypted(cfg, st, j, succ, expected, nonce, ReadOf(st, j), st.now);
      var (plain, plainReply) :=
        RotateScript(cfg, Decrypted(st), j, Successor(cfg, succ, j, st.now), succ, expected, nonce);
      && enc == st && plain == Decrypted(st)
      && (plainReply == reply <==> !ReplaysRevoked(st, Rotate(j, succ, expected, nonce, st.now)))
  {
    if j in st.records {
      assert SealedEntry(st.records[j], j, st.now);
    }
  }

  lemma UnlinkMatters(st: Store, j: Jti)
    ensures Zrem(st, {j}) == st <==> j !in st.index
  {
  }

  predicate Simulates(cfg: Config, st: Store, op: Op) {
    var (plain, plainReply) := Step(cfg, Decrypted(st), op);
    var (enc, encReply) := Step(cfg, st, EncryptedCall(st, op));
    && (plain == Decrypted(enc) <==> !LeavesStaleMember(st, op))
    && (View(plainReply) == View(encReply) <==> !ReplaysRevoked(st, op))
    && Sealed(enc)
  }

  lemma CreateCallSimulates(cfg: Config, st: Store, op: Op)
    requires Sealed(st) && op.Create? && !op.encrypted && op.appNow == st.now
    ensures Simulates(cfg, st, op)
  {
    var r := NewRecord(cfg, op.jti, op.appNow, op.profile, op.captured);
    var ttl := Max(1, r.absoluteExpiresAt - op.appNow);
    CreateSimulates(cfg, st, r, op.jti, op.appNow, ttl);
    assert Step(cfg, Decrypted(st), op).0 == CreateScript(cfg, Decrypted(st), Plain(r), op.jti, op.appNow, ttl).0;
    assert Step(cfg, st, EncryptedCall(st, op)).0 == CreateScript(cfg, st, Seal(r), op.jti, op.appNow, ttl).0;
  }

  lemma RotateSimulates(cfg: Config, st: Store, op: Op)
    requires Sealed(st) && op.Rotate? && op.appNow == st.now
    ensures Simulates(cfg, st, op)
  {
    if RotationExpires(st, op.jti) {
      ExpirySimulates(cfg, st, op.jti, op.succ, op.expected, op.nonce);
      UnlinkMatters(Decrypted(Del(st, {op.jti})), op.jti);
    } else if op.jti in st.records &&
              RotateGate(st, Mirror(st.records[op.jti].env), op.succ, op.expected, op.nonce).None? {
      RotationSimulates(cfg, st, op.jti, op.succ, op.expected, op.nonce);
    } else {
      OtherRefusalSimulates(cfg, st, op.jti, op.succ, op.expected, op.nonce);
    }
  }

  lemma ClockSimulates(cfg: Config, st: Store, op: Op)
    requires Sealed(st) && (op.Tick? || op.ReclaimClaim? || op.SetSecurityVersion?)
    ensures Simulates(cfg, st, op)
  {
  }

  lemma RemovalSimulates(cfg: Config, st: Store, op: Op)
    requires Sealed(st) && (op.Reclaim? || op.Destroy? || op.EnforceLimit?)
    ensures Simulates(cfg, st, op)
  {
    if op.EnforceLimit? {
      SealedDel(st, Surplus(st.index, cfg.maxSessionsPerUser, cfg.maxEvictionsPerCall));
    } else {
      SealedDel(st, {op.jti});
    }
  }

  lemma CleanupSimulates(cfg: Config, st: Store, op: Op)
    requires Sealed(st) && (op.CleanupIndex? || op.DeleteBatch?)
    ensures Simulates(cfg, st, op)
  {
    if op.CleanupIndex? {
      StaleCommutes(st, op.jtis);
    } else {
      DeleteBatchCommutes(st, op.jtis);
      DeleteBatchEffect(st, op.jtis);
    }
  }

  /**
   * Step by step: the states agree except exactly after the rotation of an expired indexed session, the
   * answers agree except exactly on the replay of a revoked tombstone, and the mirrors stay equal always.
   */
  lemma StepSimulates(cfg: Config, st: Store, op: Op)
    requires Sealed(st) && PlainInStep(st, op)
    ensures Simulates(cfg, st, op)
  {
    if op.Create? {
      CreateCallSimulates(cfg, st, op);
    } else if op.Touch? {
      TouchSimulates(cfg, st, op.jti, op.force);
    } else if op.Update? {
      UpdateSimulates(st, op.jti, op.expected, op.patch);
    } else if op.Revoke? {
      RevokeSimulates(st, op.jti, op.ttl);
    } else if op.Validate? {
      ValidateSimulates(st, op.jti);
    } else if op.Rotate? {
      RotateSimulates(cfg, st, op);
    } else if op.Reclaim? || op.Destroy? || op.EnforceLimit? {
      RemovalSimulates(cfg, st, op);
    } else if op.CleanupIndex? || op.DeleteBatch? {
      CleanupSimulates(cfg, st, op);
    } else {
      ClockSimulates(cfg, st, op);
    }
  }

  // ---------------------------------------------------------------- whole runs

  function ExecEncrypted(cfg: Config, st: Store, ops: seq<Op>): Store
    decreases |ops|
  {
    if ops == [] then st else ExecEncrypted(cfg, Step(cfg, st, EncryptedCall(st, ops[0])).0, ops[1..])
  }

  function SeenPlain(cfg: Config, st: Store, ops: seq<Op>): seq<Seen>
    decreases |ops|
  {
    if ops == [] then []
    else [View(Step(cfg, st, ops[0]).1)] + SeenPlain(cfg, Step(cfg, st, ops[0]).0, ops[1..])
  }

  function SeenEncrypted(cfg: Config, st: Store, ops: seq<Op>): seq<Seen>
    decreases |ops|
  {
    if ops == [] then []
    else
      var (st', reply) := Step(cfg, st, EncryptedCall(st, ops[0]));
      [View(reply)] + SeenEncrypted(cfg, st', ops[1..])
  }

  /** The clocks agree and neither exception arises along the run. */
  predicate Ordinary(cfg: Config, st: Store, ops: seq<Op>)
    decreases |ops|
  {
    ops == [] ||
    (&& PlainInStep(st, ops[0]) && !LeavesStaleMember(st, ops[0]) && !ReplaysRevoked(st, ops[0])
     && Ordinary(cfg, Step(cfg, st, EncryptedCall(st, ops[0])).0, ops[1..]))
  }

  lemma {:induction false} RunSimulates(cfg: Config, st: Store, ops: seq<Op>)
    requires Sealed(st) && Ordinary(cfg, st, ops)
    ensures Decrypted(ExecEncrypted(cfg, st, ops)) == Exec(cfg, Decrypted(st), ops)
    ensures SeenEncrypted(cfg, st, ops) == SeenPlain(cfg, Decrypted(st), ops)
    ensures Sealed(ExecEncrypted(cfg, st, ops))
    decreases |ops|
  {
    if ops != [] {
      StepSimulates(cfg, st, ops[0]);
      RunSimulates(cfg, Step(cfg, st, EncryptedCall(st, ops[0])).0, ops[1..]);
    }
  }

  /** From an empty user, an encrypted deployment is indistinguishable from a plain one. */
  lemma EncryptedRefinesPlain(cfg: Config, start: int, ops: seq<Op>)
    requires Ordinary(cfg, EMPTY_STORE.(now := start), ops)
    ensures var st := EMPTY_STORE.(now := start);
      && SeenEncrypted(cfg, st, ops) == SeenPlain(cfg, st, ops)
      && Decrypted(ExecEncrypted(cfg, st, ops)) == Exec(cfg, st, ops)
      && (forall k | k in ExecEncrypted(cfg, st, ops).records ::
            ExecEncrypted(cfg, st, ops).records[k].env == Seal(Exec(cfg, st, ops).records[k].env.s))
  {
    var st := EMPTY_STORE.(now := start);
    assert Decrypted(st) == st;
    RunSimulates(cfg, st, ops);
    var enc := ExecEncrypted(cfg, st, ops);
    forall k | k in enc.records ensures enc.records[k].env == Seal(Exec(cfg, st, ops).records[k].env.s) {
      assert Decrypted(enc).records[k] == DecryptedEntry(enc.records[k]);
    }
  }

  // ---------------------------------------------------------------- with steps in between

  /**
   * A touch that raced other writers leaves equal mirrors exactly when its read still had the stored
   * version, expiry and rotation fields; otherwise the next validation fails closed.
   */
  lemma RacedTouchFailsClosed(cfg: Config, st: Store, j: Jti, force: bool, read: Envelope, appNow: int)
    requires Step(cfg, st, TouchEnc(j, force, Some(read), appNow)).1 == TouchOut(Touched)
    ensures var st' := Step(cfg, st, TouchEnc(j, force, Some(read), appNow)).0;
      var h, r := Mirror(st.records[j].env), Content(read);
      var agree := h.ver == r.version && h.exp == r.absoluteExpiresAt
                   && h.rn == r.rotationNonceHash && h.rj == r.rotatedTo;
      && j in st'.records
      && (st'.records[j].env == Seal(Content(st'.records[j].env)) <==> agree)
      && (!agree ==> !VerdictOf(ValidateScript(st', j).1).Valid?)
  {
  }

  /**
   * A raced update leaves equal mirrors exactly when its read had the stored expiry and rotation fields:
   * it overwrites activity and idle boundary, so a write in between is lost rather than refused.
   */
  lemma RacedUpdateOverwrites(cfg: Config, st: Store, j: Jti, expected: Option<nat>, patch: Patch, read: Envelope,
                              appNow: int)
    requires Step(cfg, st, UpdateEnc(j, expected, patch, Some(read), appNow)).1.update.Updated?
    ensures var st' := Step(cfg, st, UpdateEnc(j, expected, patch, Some(read), appNow)).0;
      var h, r := Mirror(st.records[j].env), Content(read);
      && j in st'.records && st'.records[j].env.Encrypted?
      && var env := st'.records[j].env;
      && (env == Seal(env.payload) <==>
            h.exp == r.absoluteExpiresAt && h.rn == r.rotationNonceHash && h.rj == r.rotatedTo)
      && env.header.la == r.lastAccessedAt && env.header.idle == r.idleExpiresAt
      && env.payload == UpdatedRecord(r, patch)
  {
  }

  /**
   * The script stamps the successor's mirrored activity from the server's clock, its payload has the
   * client's: the successor of an encrypted rotation can validate exactly when the two clocks agreed.
   */
  lemma SkewedRotationFailsClosed(cfg: Config, st: Store, j: Jti, succ: Jti, expected: Option<nat>,
                                  nonce: Option<string>, read: Option<Envelope>, appNow: int)
    requires Step(cfg, st, RotateEnc(j, succ, expected, nonce, read, appNow)).1 == RotateOut(Rotated(succ))
    ensures var st' := Step(cfg, st, RotateEnc(j, succ, expected, nonce, read, appNow)).0;
      && succ in st'.records
      && (st'.records[succ].env == Seal(Content(st'.records[succ].env)) <==> appNow == st.now)
      && (appNow != st.now ==> !VerdictOf(ValidateScript(st', succ).1).Valid?)
      && (appNow == st.now && st.securityVersion.None? ==> VerdictOf(ValidateScript(st', succ).1).Valid?)
  {
    var ns := Successor(cfg, succ, j, appNow);
    var h := SuccessorHeader(EncryptedHeaderOf(ns), st.now);
    assert h == EncryptedHeaderOf(ns).(la := st.now);
    assert Step(cfg, st, RotateEnc(j, succ, expected, nonce, read, appNow)).0.records[succ].env == Encrypted(h, ns);
  }
}
