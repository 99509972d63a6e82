/** Retry safety: a retained tombstone answers every later rotation, until its absolute expiry. */
module SessionReplay {
  import opened Wrappers
  import opened SessionTypes
  import opened SortedSet
  import opened SessionScripts
  import opened SessionSystem
  import opened SessionEvolution
  import Mortality = SessionMortality

  predicate IsTombstone(st: Store, a: Jti) {
    a in st.records && Mirror(st.records[a].env).st == Consumed
  }

  /** A tombstone that no eviction can reach. */
  predicate Rests(st: Store, a: Jti) {
    IsTombstone(st, a) && a !in st.index
  }

  /** The step leaves record `a` as it is, and out of the index. */
  predicate Untouched(st: Store, st': Store, a: Jti) {
    a in st.records && a in st'.records && st'.records[a] == st.records[a] && a !in st'.index
  }

  /** The explicit ways to end a tombstone: revoke, destroy, a batch that lists it, or an application delete. */
  predicate Attacks(cfg: Config, op: Op, a: Jti) {
    match op
    case Revoke(j, _) => j == a
    case RevokeEnc(j, _, _) => j == a
    case Destroy(j) => j == a
    case TouchEnc(j, force, read, appNow) =>
      j == a && TouchPlan(cfg, read, appNow, force) == Answer(TouchExpired, true)
    case RotateEnc(j, succ, expected, nonce, read, appNow) =>
      j == a && RotatePlan(read, appNow, succ, expected, nonce) == Answer(RotateExpired, true)
    case UpdateEnc(j, expected, patch, read, appNow) =>
      j == a && UpdatePlan(read, appNow, expected, patch) == Answer(UpdateExpired, true)
    case DeleteBatch(js) => a in js
    case _ => false
  }

  predicate Spares(cfg: Config, ops: seq<Op>, a: Jti) {
    forall i | 0 <= i < |ops| :: !Attacks(cfg, ops[i], a)
  }

  lemma SurplusIsIndexed(index: map<Jti, int>, limit: nat, bound: nat)
    ensures Surplus(index, limit, bound) <= index.Keys
  {
  }

  lemma CreateSpares(cfg: Config, st: Store, encrypted: bool, j: Jti, appNow: int, profile: Profile,
                     captured: Option<nat>, a: Jti)
    requires Rests(st, a)
    ensures Untouched(st, CreateStep(cfg, st, encrypted, j, appNow, profile, captured).0, a)
  {
    SurplusIsIndexed(st.index[j := appNow], cfg.maxSessionsPerUser, cfg.maxEvictionsPerCall);
  }

  lemma RotateSpares(cfg: Config, st: Store, op: Op, a: Jti)
    requires Rests(st, a) && !Attacks(cfg, op, a) && (op.Rotate? || op.RotateEnc?)
    ensures Untouched(st, Step(cfg, st, op).0, a)
  {
  }

  lemma TouchSpares(cfg: Config, st: Store, op: Op, a: Jti)
    requires Rests(st, a) && !Attacks(cfg, op, a) && (op.Touch? || op.TouchEnc?)
    ensures Untouched(st, Step(cfg, st, op).0, a)
  {
  }

  lemma UpdateSpares(cfg: Config, st: Store, op: Op, a: Jti)
    requires Rests(st, a) && !Attacks(cfg, op, a) && (op.Update? || op.UpdateEnc?)
    ensures Untouched(st, Step(cfg, st, op).0, a)
  {
  }

  lemma RevokeSpares(cfg: Config, st: Store, op: Op, a: Jti)
    requires Rests(st, a) && !Attacks(cfg, op, a) && (op.Revoke? || op.RevokeEnc?)
    ensures Untouched(st, Step(cfg, st, op).0, a)
  {
  }

  /** Evictions take indexed members only, and nothing indexes an id that has a record. */
  lemma TombstoneStep(cfg: Config, st: Store, op: Op, a: Jti)
    requires Rests(st, a) && st.now < st.records[a].deadline && !Attacks(cfg, op, a)
    ensures Untouched(st, Step(cfg, st, op).0, a)
  {
    if op.Create? {
      CreateSpares(cfg, st, op.encrypted, op.jti, op.appNow, op.profile, op.captured, a);
    } else if op.EnforceLimit? {
      SurplusIsIndexed(st.index, cfg.maxSessionsPerUser, cfg.maxEvictionsPerCall);
    } else if op.DeleteBatch? {
      DeleteBatchEffect(st, op.jtis);
    } else if op.Rotate? || op.RotateEnc? {
      RotateSpares(cfg, st, op, a);
    } else if op.Touch? || op.TouchEnc? {
      TouchSpares(cfg, st, op, a);
    } else if op.Update? || op.UpdateEnc? {
      UpdateSpares(cfg, st, op, a);
    } else if op.Revoke? || op.RevokeEnc? {
      RevokeSpares(cfg, st, op, a);
    }
  }

  lemma {:induction false} ClockOnlyAdvances(cfg: Config, st: Store, ops: seq<Op>)
    ensures st.now <= Exec(cfg, st, ops).now
    decreases |ops|
  {
    if ops != [] {
      Mortality.ClockAdvances(cfg, st, ops[0]);
      ClockOnlyAdvances(cfg, Step(cfg, st, ops[0]).0, ops[1..]);
    }
  }

  lemma {:induction false} TombstoneStays(cfg: Config, st: Store, ops: seq<Op>, a: Jti)
    requires Rests(st, a) && Spares(cfg, ops, a)
    requires Exec(cfg, st, ops).now < st.records[a].deadline
    ensures Untouched(st, Exec(cfg, st, ops), a)
    decreases |ops|
  {
    if ops != [] {
      ClockOnlyAdvances(cfg, st, ops);
      assert !Attacks(cfg, ops[0], a);
      TombstoneStep(cfg, st, ops[0], a);
      assert Spares(cfg, ops[1..], a);
      TombstoneStays(cfg, Step(cfg, st, ops[0]).0, ops[1..], a);
    }
  }

  /** What a rotation of a tombstone must answer: the successor to the same nonce, a refusal to any other. */
  function RetryAnswer(first: Option<string>, retry: Option<string>, b: Jti): RotateReply {
    if retry.Some? && retry == first then RotateReplay(Some(b)) else RotateInactive
  }

  /** A rotation that retains its tombstone leaves it at rest, from any state. */
  lemma RotationLeavesTombstone(cfg: Config, st: Store, a: Jti, b: Jti, expected: Option<nat>, nonce: Option<string>,
                                appNow: int)
    requires cfg.retainConsumedTombstones
    requires Step(cfg, st, Rotate(a, b, expected, nonce, appNow)).1 == RotateOut(Rotated(b))
    ensures var after := Step(cfg, st, Rotate(a, b, expected, nonce, appNow)).0;
      && Rests(after, a) && st.records[a].env.Plain?
      && after.records[a] ==
         Entry(Plain(ConsumedRecord(st.records[a].env.s, st.now, b, nonce)), Mirror(st.records[a].env).exp)
  {
  }

  /**
   * After the plain rotation of `a` to `b` with a retained tombstone, and until `a` would have
   * expired, every rotation of `a` gets the retry answer and changes nothing, from whatever state and
   * whatever creates, evictions, deletions of other sessions, touches, updates and cleanups came in between.
   */
  lemma RetrySafe(cfg: Config, st: Store, a: Jti, b: Jti, expected: Option<nat>, nonce: Option<string>,
                  appNow: int, ops: seq<Op>, retry: Op)
    requires cfg.retainConsumedTombstones
    requires Step(cfg, st, Rotate(a, b, expected, nonce, appNow)).1 == RotateOut(Rotated(b))
    requires var after := Step(cfg, st, Rotate(a, b, expected, nonce, appNow)).0;
      Spares(cfg, ops, a) && Exec(cfg, after, ops).now < Mirror(st.records[a].env).exp
    requires retry.Rotate? && retry.jti == a
    ensures var late := Exec(cfg, Step(cfg, st, Rotate(a, b, expected, nonce, appNow)).0, ops);
      Step(cfg, late, retry) == (late, RotateOut(RetryAnswer(nonce, retry.nonce, b)))
  {
    RotationLeavesTombstone(cfg, st, a, b, expected, nonce, appNow);
    TombstoneStays(cfg, Step(cfg, st, Rotate(a, b, expected, nonce, appNow)).0, ops, a);
  }

  // ---------------------------------------------------------------- encrypted sessions

  /** What an encrypted rotation leaves, whatever was read and by whatever clock. */
  lemma EncryptedRotationLeavesTombstone(cfg: Config, st: Store, first: Op)
    requires first.RotateEnc? && cfg.retainConsumedTombstones
    requires Step(cfg, st, first).1 == RotateOut(Rotated(first.succ))
    ensures var after := Step(cfg, st, first).0;
      && first.jti in st.records && first.read.Some? && Rests(after, first.jti)
      && var h, r := Mirror(st.records[first.jti].env), Content(first.read.value);
      && after.records[first.jti] ==
         Entry(Encrypted(TombHeader(h, first.succ, first.nonce),
                         ConsumedRecord(r, first.appNow, first.succ, first.nonce)),
               st.now + Max(1, r.absoluteExpiresAt - first.appNow))
  {
  }

  /** A retry that reads this record, or still holds a read that lets it go on to the script. */
  predicate Retries(retry: Op, a: Jti, tomb: Envelope) {
    && retry.RotateEnc? && retry.jti == a
    && (retry.read == Some(tomb) ||
        RotatePlan(retry.read, retry.appNow, retry.succ, retry.expected, retry.nonce).Submit?)
  }

  /** The application answers from the payload and the script from the mirrors: both know the successor. */
  lemma TombstoneAnswers(cfg: Config, late: Store, h: Header, r: Record, b: Jti, nonce: Option<string>, appNow: int,
                         retry: Op, a: Jti)
    requires a in late.records
    requires late.records[a].env == Encrypted(TombHeader(h, b, nonce), ConsumedRecord(r, appNow, b, nonce))
    requires Retries(retry, a, late.records[a].env)
    ensures Step(cfg, late, retry) == (late, RotateOut(RetryAnswer(nonce, retry.nonce, b)))
  {
  }

  /**
   * The same for encrypted sessions, whatever the rotation had read, whichever clock it used and whether
   * or not the mirrors agreed with the payload: until the tombstone's deadline.
   */
  lemma RetrySafeEncrypted(cfg: Config, st: Store, first: Op, ops: seq<Op>, retry: Op)
    requires first.RotateEnc? && cfg.retainConsumedTombstones
    requires Step(cfg, st, first).1 == RotateOut(Rotated(first.succ))
    requires var after := Step(cfg, st, first).0;
      && first.jti in after.records && Spares(cfg, ops, first.jti)
      && Exec(cfg, after, ops).now < after.records[first.jti].deadline
      && Retries(retry, first.jti, after.records[first.jti].env)
    ensures var late := Exec(cfg, Step(cfg, st, first).0, ops);
      Step(cfg, late, retry) == (late, RotateOut(RetryAnswer(first.nonce, retry.nonce, first.succ)))
  {
    var after := Step(cfg, st, first).0;
    EncryptedRotationLeavesTombstone(cfg, st, first);
    TombstoneStays(cfg, after, ops, first.jti);
    TombstoneAnswers(cfg, Exec(cfg, after, ops), Mirror(st.records[first.jti].env), Content(first.read.value),
                     first.succ, first.nonce, first.appNow, retry, first.jti);
  }

  /**
   * That deadline is not before the session's absolute boundary exactly when the rotation's clock was not
   * ahead of the server's by more than the read's boundary was ahead of the mirrored one.
   */
  lemma DeadlineCoversExpiry(cfg: Config, st: Store, first: Op)
    requires first.RotateEnc? && cfg.retainConsumedTombstones
    requires Step(cfg, st, first).1 == RotateOut(Rotated(first.succ))
    ensures var after := Step(cfg, st, first).0;
      && first.jti in after.records && first.jti in st.records && first.read.Some?
      && var exp, readExp := Mirror(st.records[first.jti].env).exp, Content(first.read.value).absoluteExpiresAt;
         after.records[first.jti].deadline >= exp <==> first.appNow - st.now <= readExp - exp
  {
    EncryptedRotationLeavesTombstone(cfg, st, first);
  }

  /** So with a read of the stored boundary and a clock not ahead, the retry is safe until the boundary. */
  lemma RetrySafeUntilExpiry(cfg: Config, st: Store, first: Op, ops: seq<Op>, retry: Op)
    requires first.RotateEnc? && cfg.retainConsumedTombstones
    requires Step(cfg, st, first).1 == RotateOut(Rotated(first.succ))
    requires first.jti in st.records && first.read.Some?
    requires first.appNow - st.now <=
             Content(first.read.value).absoluteExpiresAt - Mirror(st.records[first.jti].env).exp
    requires var after := Step(cfg, st, first).0;
      && first.jti in after.records && Spares(cfg, ops, first.jti)
      && Exec(cfg, after, ops).now < Mirror(st.records[first.jti].env).exp
      && Retries(retry, first.jti, after.records[first.jti].env)
    ensures var late := Exec(cfg, Step(cfg, st, first).0, ops);
      Step(cfg, late, retry) == (late, RotateOut(RetryAnswer(first.nonce, retry.nonce, first.succ)))
  {
    DeadlineCoversExpiry(cfg, st, first);
    RetrySafeEncrypted(cfg, st, first, ops, retry);
  }
}
