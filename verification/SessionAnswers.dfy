/**
 * When each answer is given: one condition per answer, over what is stored, what was read and the two
 * clocks, independent of the order in which a script makes its checks.
 */
module SessionAnswers {
  import opened Wrappers
  import opened SessionTypes
  import opened SessionScripts
  import opened SessionSystem
  import opened SessionEvolution
  import opened SessionRefinement
  import Versions = SessionVersions

  predicate StoredPlain(st: Store, j: Jti) {
    j in st.records && st.records[j].env.Plain?
  }

  predicate StoredEncrypted(st: Store, j: Jti) {
    j in st.records && st.records[j].env.Encrypted?
  }

  /** No version is expected, or this one. */
  predicate Meets(expected: Option<nat>, version: nat) {
    expected.Some? ==> expected.value == version
  }

  /** The nonce of a retry: it names the rotation that left this hash. */
  predicate Repeats(nonce: Option<string>, hash: Option<string>) {
    nonce.Some? && hash.Some? && nonce.value == hash.value
  }

  // ---------------------------------------------------------------- validate

  lemma ValidateAnswers(cfg: Config, st: Store, j: Jti)
    requires j in st.records
    ensures var env := st.records[j].env;
      var h, reply := Mirror(env), Step(cfg, st, Validate(j)).1.validate;
      var idle := h.idle.Some? && h.idle.value <= st.now;
      var stale := env.Plain? && st.securityVersion.Some? && env.s.securityVersion != st.securityVersion;
      && (forall status :: reply == ValidateInactive(status) <==> h.st == status && status != Active)
      && (reply == ValidateExpired <==> h.st == Active && h.exp <= st.now)
      && (reply == ValidateIdle <==> h.st == Active && st.now < h.exp && idle)
      && (reply == ValidateSecurity <==> h.st == Active && st.now < h.exp && !idle && stale)
      && (forall e, v :: reply == ValidateRead(e, v) <==>
            h.st == Active && st.now < h.exp && !idle && !stale && e == env && v == st.securityVersion)
  {
  }

  /** Nothing is answered for a missing record but that, and only expired and idle records are removed. */
  lemma ValidateEffects(cfg: Config, st: Store, j: Jti)
    ensures var (st', out) := Step(cfg, st, Validate(j));
      && (out == ValidateOut(ValidateMissing) <==> j !in st.records)
      && (if out == ValidateOut(ValidateExpired) || out == ValidateOut(ValidateIdle)
          then j in st.records
               && var member := if st.records[j].env.Plain? then st.records[j].env.s.jti else j;
               st' == st.(records := st.records - {j}, index := st.index - {member})
          else st' == st)
  {
  }

  /** Some mirror says something else than the payload. */
  predicate MirrorsDiffer(env: Envelope) {
    env.Encrypted? &&
    !(&& env.header.st == env.payload.status
      && env.header.ver == env.payload.version
      && env.header.la == env.payload.lastAccessedAt
      && env.header.idle == env.payload.idleExpiresAt
      && env.header.exp == env.payload.absoluteExpiresAt
      && env.header.rn == env.payload.rotationNonceHash
      && env.header.rj == env.payload.rotatedTo)
  }

  /** What the caller of the service is told, on either path. */
  lemma Verdicts(cfg: Config, st: Store, j: Jti)
    requires j in st.records
    ensures var env := st.records[j].env;
      var h, r, verdict := Mirror(env), Content(env), VerdictOf(Step(cfg, st, Validate(j)).1.validate);
      var idle := h.idle.Some? && h.idle.value <= st.now;
      var live := h.st == Active && st.now < h.exp && !idle;
      var outdated := st.securityVersion.Some? && r.securityVersion != st.securityVersion;
      && verdict != NotFound
      && (verdict == Expired <==> h.st == Active && h.exp <= st.now)
      && (verdict == IdleTimeout <==> h.st == Active && st.now < h.exp && idle)
      && (verdict == RevokedSession <==> h.st == Revoked || (live && !MirrorsDiffer(env) && outdated))
      && (verdict == Invalid <==> h.st == Consumed || (live && MirrorsDiffer(env)))
      && (forall s :: verdict == Valid(s) <==> live && !MirrorsDiffer(env) && !outdated && s == r)
  {
    ValidateAnswers(cfg, st, j);
  }

  lemma NotFoundIffMissing(cfg: Config, st: Store, j: Jti)
    ensures VerdictOf(Step(cfg, st, Validate(j)).1.validate) == NotFound <==> j !in st.records
  {
    ValidateEffects(cfg, st, j);
  }

  lemma SecurityVersionStep(cfg: Config, st: Store, op: Op)
    ensures Step(cfg, st, op).0.securityVersion ==
            if op.SetSecurityVersion? then Some(op.value) else st.securityVersion
  {
    if op.DeleteBatch? {
      DeleteBatchEffect(st, op.jtis);
    }
  }

  predicate NoSecurityVersionIn(ops: seq<Op>) {
    forall i | 0 <= i < |ops| :: !ops[i].SetSecurityVersion?
  }

  lemma {:induction false} SecurityVersionStays(cfg: Config, st: Store, ops: seq<Op>)
    requires NoSecurityVersionIn(ops)
    ensures Exec(cfg, st, ops).securityVersion == st.securityVersion
    decreases |ops|
  {
    if ops != [] {
      SecurityVersionStep(cfg, st, ops[0]);
      assert NoSecurityVersionIn(ops[1..]);
      SecurityVersionStays(cfg, Step(cfg, st, ops[0]).0, ops[1..]);
    }
  }

  /**
   * Once a security version is set, and until another is, every session that validates carries it, on either
   * path and whatever runs in between: a new version ends all sessions of the user that have another or none.
   */
  lemma OldVersionsAreOut(cfg: Config, st: Store, v: nat, ops: seq<Op>, j: Jti)
    requires NoSecurityVersionIn(ops)
    ensures var late := Exec(cfg, Step(cfg, st, SetSecurityVersion(v)).0, ops);
      var verdict := VerdictOf(Step(cfg, late, Validate(j)).1.validate);
      verdict.Valid? ==> verdict.session.securityVersion == Some(v)
  {
    var after := Step(cfg, st, SetSecurityVersion(v)).0;
    SecurityVersionStays(cfg, after, ops);
    var late := Exec(cfg, after, ops);
    if j in late.records {
      Verdicts(cfg, late, j);
    } else {
      NotFoundIffMissing(cfg, late, j);
    }
  }

  // ---------------------------------------------------------------- rotate

  lemma RotateAnswers(cfg: Config, st: Store, j: Jti, succ: Jti, expected: Option<nat>, nonce: Option<string>,
                      appNow: int)
    requires StoredPlain(st, j)
    ensures var s, reply := st.records[j].env.s, Step(cfg, st, Rotate(j, succ, expected, nonce, appNow)).1.rotate;
      var unspent := s.status == Active && st.now < s.absoluteExpiresAt;
      var retry := s.status == Consumed && Repeats(nonce, s.rotationNonceHash);
      && (reply == Rotated(succ) <==> unspent && Meets(expected, s.version) && succ !in st.records)
      && (reply == RotateConflict <==> unspent && !Meets(expected, s.version))
      && (reply == RotateCollision <==> unspent && Meets(expected, s.version) && succ in st.records)
      && (reply == RotateExpired <==> s.status == Active && s.absoluteExpiresAt <= st.now)
      && (forall known :: reply == RotateReplay(known) <==> retry && known == s.rotatedTo)
      && (reply == RotateInactive <==> s.status != Active && !retry)
  {
  }

  /** The application lets an encrypted rotation or update go on to the script. */
  predicate Cleared(read: Option<Envelope>, appNow: int, expected: Option<nat>) {
    && read.Some?
    && var r := Content(read.value);
       r.status == Active && appNow < r.absoluteExpiresAt && Meets(expected, r.version)
  }

  /** On the mirrors the script finds an active, unexpired record. */
  predicate Unspent(st: Store, j: Jti) {
    StoredEncrypted(st, j) && var h := st.records[j].env.header; h.st == Active && st.now < h.exp
  }

  lemma RotateEncAnswers(cfg: Config, st: Store, j: Jti, succ: Jti, expected: Option<nat>, nonce: Option<string>,
                         read: Envelope, appNow: int)
    requires StoredEncrypted(st, j)
    ensures var r, h := Content(read), st.records[j].env.header;
      var reply := Step(cfg, st, RotateEnc(j, succ, expected, nonce, Some(read), appNow)).1.rotate;
      var cleared := Cleared(Some(read), appNow, expected);
      var readOpen := r.status == Active && appNow < r.absoluteExpiresAt;
      var retry := h.st == Consumed && Repeats(nonce, h.rn);
      var knownRetry := r.status != Active && Repeats(nonce, r.rotationNonceHash) && r.rotatedTo.Some?;
      && (reply == Rotated(succ) <==> cleared && Unspent(st, j) && Meets(expected, h.ver) && succ !in st.records)
      && (reply == RotateConflict <==>
            (readOpen && !Meets(expected, r.version)) || (cleared && Unspent(st, j) && !Meets(expected, h.ver)))
      && (reply == RotateCollision <==> cleared && Unspent(st, j) && Meets(expected, h.ver) && succ in st.records)
      && (reply == RotateExpired <==>
            || (r.status == Active && r.absoluteExpiresAt <= appNow)
            || (cleared && h.st == Active && h.exp <= st.now))
      && (forall known :: reply == RotateReplay(known) <==>
            (knownRetry && known == r.rotatedTo) || (cleared && retry && known == h.rj))
      && (reply == RotateInactive <==>
            (r.status != Active && !knownRetry) || (cleared && h.st != Active && !retry))
  {
  }

  /** A call for the other kind of record, or for none, changes nothing. */
  lemma RotateElsewhere(cfg: Config, st: Store, j: Jti, succ: Jti, expected: Option<nat>, nonce: Option<string>,
                        read: Option<Envelope>, appNow: int)
    ensures var (st', out) := Step(cfg, st, Rotate(j, succ, expected, nonce, appNow));
      && (out == RotateOut(RotateMissing) <==> j !in st.records)
      && (out == RotateOut(RotateWrongMode) <==> StoredEncrypted(st, j))
      && (out == RotateOut(RotateMissing) || out == RotateOut(RotateWrongMode) ==> st' == st)
    ensures var (st', out) := Step(cfg, st, RotateEnc(j, succ, expected, nonce, read, appNow));
      && (out == RotateOut(RotateMissing) <==>
            read.None? || (Cleared(read, appNow, expected) && j !in st.records))
      && (out == RotateOut(RotateWrongMode) <==> Cleared(read, appNow, expected) && StoredPlain(st, j))
      && (out == RotateOut(RotateMissing) || out == RotateOut(RotateWrongMode) ==> st' == st)
  {
  }

  /** A refused rotation changes nothing, unless it finds the session expired. */
  lemma RotateRefusals(cfg: Config, st: Store, op: Op)
    requires (op.Rotate? || op.RotateEnc?) && !Step(cfg, st, op).1.rotate.Rotated?
    ensures var (st', out) := Step(cfg, st, op);
      var scripted := op.Rotate? || Cleared(op.read, op.appNow, op.expected);
      st' == if out.rotate != RotateExpired then st
             else if scripted then st.(records := st.records - {op.jti}, index := st.index - {op.jti})
             else st.(records := st.records - {op.jti})
  {
  }

  /** The rotation gets past all checks but that of the stored version. */
  predicate RotatesUnspent(st: Store, op: Op) {
    || (op.Rotate? && StoredPlain(st, op.jti)
        && st.records[op.jti].env.s.status == Active && st.now < st.records[op.jti].env.s.absoluteExpiresAt)
    || (op.RotateEnc? && Unspent(st, op.jti) && Cleared(op.read, op.appNow, op.expected))
  }

  /**
   * A rotation that names the version of an earlier state conflicts exactly if an update has succeeded
   * since, whatever else ran in between.
   */
  lemma RotationSeesUpdates(cfg: Config, st: Store, ops: seq<Op>, op: Op, j: Jti)
    requires j in st.records && NoBirth(cfg, st, ops, j) && Versions.Guarded(ops, j)
    requires (op.Rotate? || op.RotateEnc?) && op.jti == j && op.expected == Some(Versions.Version(st, j))
    requires RotatesUnspent(Exec(cfg, st, ops), op)
    ensures Step(cfg, Exec(cfg, st, ops), op).1 == RotateOut(RotateConflict) <==>
            Versions.Successes(cfg, st, ops, j) > 0
  {
    var late := Exec(cfg, st, ops);
    Versions.VersionCountsSuccesses(cfg, st, ops, j);
    if op.Rotate? {
      RotateAnswers(cfg, late, j, op.succ, op.expected, op.nonce, op.appNow);
    } else {
      RotateEncAnswers(cfg, late, j, op.succ, op.expected, op.nonce, op.read.value, op.appNow);
    }
  }

  // ---------------------------------------------------------------- update

  lemma UpdateAnswers(cfg: Config, st: Store, j: Jti, expected: Option<nat>, patch: Patch)
    requires StoredPlain(st, j)
    ensures var s, reply := st.records[j].env.s, Step(cfg, st, Update(j, expected, patch)).1.update;
      var unspent := s.status == Active && st.now < s.absoluteExpiresAt;
      && (forall v :: reply == Updated(v) <==> unspent && Meets(expected, s.version) && v == s.version + 1)
      && (reply == UpdateConflict <==> unspent && !Meets(expected, s.version))
      && (reply == UpdateExpired <==> s.status == Active && s.absoluteExpiresAt <= st.now)
      && (reply == UpdateInactive <==> s.status != Active)
  {
  }

  lemma UpdateEncAnswers(cfg: Config, st: Store, j: Jti, expected: Option<nat>, patch: Patch, read: Envelope,
                         appNow: int)
    requires StoredEncrypted(st, j)
    ensures var r, h := Content(read), st.records[j].env.header;
      var reply := Step(cfg, st, UpdateEnc(j, expected, patch, Some(read), appNow)).1.update;
      var cleared := Cleared(Some(read), appNow, expected);
      var readOpen := r.status == Active && appNow < r.absoluteExpiresAt;
      && (forall v :: reply == Updated(v) <==>
            cleared && Unspent(st, j) && Meets(expected, h.ver) && v == r.version + 1)
      && (reply == UpdateConflict <==>
            (readOpen && !Meets(expected, r.version)) || (cleared && Unspent(st, j) && !Meets(expected, h.ver)))
      && (reply == UpdateExpired <==>
            || (r.status == Active && r.absoluteExpiresAt <= appNow)
            || (cleared && h.st == Active && h.exp <= st.now))
      && (reply == UpdateInactive <==> r.status != Active || (cleared && h.st != Active))
  {
  }

  lemma UpdateElsewhere(cfg: Config, st: Store, j: Jti, expected: Option<nat>, patch: Patch,
                        read: Option<Envelope>, appNow: int)
    ensures var out := Step(cfg, st, Update(j, expected, patch)).1;
      && (out == UpdateOut(UpdateMissing) <==> j !in st.records)
      && (out == UpdateOut(UpdateWrongMode) <==> StoredEncrypted(st, j))
    ensures var out := Step(cfg, st, UpdateEnc(j, expected, patch, read, appNow)).1;
      && (out == UpdateOut(UpdateMissing) <==> read.None? || (Cleared(read, appNow, expected) && j !in st.records))
      && (out == UpdateOut(UpdateWrongMode) <==> Cleared(read, appNow, expected) && StoredPlain(st, j))
  {
  }

  /** A refused update changes nothing, unless it finds the session expired: then the record goes. */
  lemma UpdateRefusals(cfg: Config, st: Store, op: Op)
    requires (op.Update? || op.UpdateEnc?) && !Step(cfg, st, op).1.update.Updated?
    ensures var (st', out) := Step(cfg, st, op);
      st' == if out.update == UpdateExpired then st.(records := st.records - {op.jti}) else st
  {
  }

  // ---------------------------------------------------------------- touch

  lemma TouchAnswers(cfg: Config, st: Store, j: Jti, force: bool)
    requires StoredPlain(st, j)
    ensures var s, reply := st.records[j].env.s, Step(cfg, st, Touch(j, force)).1.touch;
      var unspent := s.status == Active && st.now < s.absoluteExpiresAt;
      var idle := s.idleExpiresAt.Some? && s.idleExpiresAt.value <= st.now;
      var early := !force && st.now < s.lastAccessedAt + cfg.touchInterval;
      && (reply == Touched <==> unspent && !idle && !early)
      && (reply == TouchThrottled <==> unspent && !idle && early)
      && (reply == TouchIdle <==> unspent && idle)
      && (reply == TouchExpired <==> s.status == Active && s.absoluteExpiresAt <= st.now)
      && (reply == TouchInactive <==> s.status != Active)
  {
  }

  /** The application's checks of a touch, on its read and clock. */
  predicate TouchCleared(cfg: Config, read: Option<Envelope>, appNow: int, force: bool) {
    && read.Some?
    && var r := Content(read.value);
    && r.status == Active && appNow < r.absoluteExpiresAt
    && (r.idleExpiresAt.Some? ==> appNow < r.idleExpiresAt.value)
    && (force || r.lastAccessedAt + cfg.touchInterval <= appNow)
  }

  lemma TouchEncAnswers(cfg: Config, st: Store, j: Jti, force: bool, read: Envelope, appNow: int)
    requires StoredEncrypted(st, j)
    ensures var r, h := Content(read), st.records[j].env.header;
      var reply := Step(cfg, st, TouchEnc(j, force, Some(read), appNow)).1.touch;
      var cleared := TouchCleared(cfg, Some(read), appNow, force);
      var readOpen := r.status == Active && appNow < r.absoluteExpiresAt;
      var readIdle := r.idleExpiresAt.Some? && r.idleExpiresAt.value <= appNow;
      var readEarly := !force && appNow < r.lastAccessedAt + cfg.touchInterval;
      var idle := h.idle.Some? && h.idle.value <= st.now;
      var early := !force && st.now < h.la + cfg.touchInterval;
      && (reply == Touched <==> cleared && Unspent(st, j) && !idle && !early && h.la <= appNow)
      && (reply == TouchStale <==> cleared && Unspent(st, j) && !idle && !early && appNow < h.la)
      && (reply == TouchThrottled <==>
            (readOpen && !readIdle && readEarly) || (cleared && Unspent(st, j) && !idle && early))
      && (reply == TouchIdle <==> (readOpen && readIdle) || (cleared && Unspent(st, j) && idle))
      && (reply == TouchExpired <==>
            || (r.status == Active && r.absoluteExpiresAt <= appNow)
            || (cleared && h.st == Active && h.exp <= st.now))
      && (reply == TouchInactive <==> r.status != Active || (cleared && h.st != Active))
  {
  }

  lemma TouchElsewhere(cfg: Config, st: Store, j: Jti, force: bool, read: Option<Envelope>, appNow: int)
    ensures var out := Step(cfg, st, Touch(j, force)).1;
      && (out == TouchOut(TouchMissing) <==> j !in st.records)
      && (out == TouchOut(TouchWrongMode) <==> StoredEncrypted(st, j))
    ensures var out := Step(cfg, st, TouchEnc(j, force, read, appNow)).1;
      && (out == TouchOut(TouchMissing) <==> read.None? || (TouchCleared(cfg, read, appNow, force) && j !in st.records))
      && (out == TouchOut(TouchWrongMode) <==> TouchCleared(cfg, read, appNow, force) && StoredPlain(st, j))
  {
  }

  lemma TouchRefusals(cfg: Config, st: Store, op: Op)
    requires (op.Touch? || op.TouchEnc?) && Step(cfg, st, op).1.touch != Touched
    ensures var (st', out) := Step(cfg, st, op);
      st' == if out.touch == TouchExpired then st.(records := st.records - {op.jti}) else st
  {
  }

  // ---------------------------------------------------------------- revoke, create, destroy

  /** Of a plain call on an encrypted record: refused for want of a payload, unless it is revoked already. */
  lemma RevokeAnswers(cfg: Config, st: Store, op: Op)
    requires op.Revoke? || op.RevokeEnc?
    ensures var (st', out) := Step(cfg, st, op);
      var stored := op.jti in st.records && (op.RevokeEnc? ==> op.read.Some?);
      var revoked := stored && Mirror(st.records[op.jti].env).st == Revoked;
      var unsealable := op.Revoke? && StoredEncrypted(st, op.jti);
      && (out == RevokeOut(RevokeDone) <==> stored && !revoked && !unsealable)
      && (out == RevokeOut(RevokeAgain) <==> stored && revoked)
      && (out == RevokeOut(RevokeNoPayload) <==> stored && !revoked && unsealable)
      && (out == RevokeOut(RevokeMissing) <==> !stored)
      && (out != RevokeOut(RevokeDone) ==> st' == st)
  {
  }

  lemma CreateAnswers(cfg: Config, st: Store, encrypted: bool, j: Jti, appNow: int, profile: Profile,
                      captured: Option<nat>)
    ensures var reply := Step(cfg, st, Create(encrypted, j, appNow, profile, captured)).1.create;
      var claimed := cfg.enableCreateIdempotency && j in st.claims;
      && (forall k :: reply == CreateReplayed(k) <==> claimed && k == st.claims[j].jti)
      && (reply == CreateCollision <==> !claimed && j in st.records)
      && (reply.Created? <==> !claimed && j !in st.records)
  {
  }

  lemma DestroyEffects(cfg: Config, st: Store, j: Jti)
    ensures var (st', out) := Step(cfg, st, Destroy(j));
      && (out == DestroyOut(true) <==> j in st.records) && (out == DestroyOut(false) <==> j !in st.records)
      && st' == st.(records := st.records - {j}, index := st.index - {j})
  {
  }
}
