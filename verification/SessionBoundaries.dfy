/** Expiry arithmetic over whole runs: what is fixed, what only grows, and how touches are spaced. */
module SessionBoundaries {
  import opened Wrappers
  import opened SessionTypes
  import opened SessionScripts
  import opened SessionSystem
  import opened SessionEvolution
  import Versions = SessionVersions
  import Mortality = SessionMortality

  /** The absolute boundary of an incarnation never moves, on either path, under any step. */
  lemma {:induction false} ExpiryIsFixed(cfg: Config, st: Store, ops: seq<Op>, k: Jti)
    requires NoBirth(cfg, st, ops, k)
    requires k in st.records && k in Exec(cfg, st, ops).records
    ensures Mirror(Exec(cfg, st, ops).records[k].env).exp == Mirror(st.records[k].env).exp
    decreases |ops|
  {
    if ops != [] {
      var st' := Step(cfg, st, ops[0]).0;
      StepFate(cfg, st, ops[0], k);
      if k !in st'.records {
        Versions.NoBirthKeepsAbsent(cfg, st', ops[1..], k);
      }
      ExpiryIsFixed(cfg, st', ops[1..], k);
    }
  }

  // ---------------------------------------------------------------- the idle cap, with any clock

  /** A plain step, whatever its application clock says. */
  predicate PlainOp(op: Op) {
    match op
    case Create(encrypted, _, _, _, _) => !encrypted
    case TouchEnc(_, _, _, _) => false
    case RotateEnc(_, _, _, _, _, _) => false
    case UpdateEnc(_, _, _, _, _) => false
    case RevokeEnc(_, _, _) => false
    case _ => true
  }

  predicate PlainOps(ops: seq<Op>) {
    forall i | 0 <= i < |ops| :: PlainOp(ops[i])
  }

  predicate CappedRecord(e: Entry) {
    e.env.Plain? && (e.env.s.idleExpiresAt.Some? ==> e.env.s.idleExpiresAt.value <= e.env.s.absoluteExpiresAt)
  }

  predicate Capped(st: Store) {
    forall k | k in st.records :: CappedRecord(st.records[k])
  }

  lemma RotateCapped(cfg: Config, st: Store, op: Op)
    requires Capped(st) && op.Rotate?
    ensures Capped(Step(cfg, st, op).0)
  {
  }

  lemma CappedStep(cfg: Config, st: Store, op: Op)
    requires Capped(st) && PlainOp(op)
    ensures Capped(Step(cfg, st, op).0)
  {
    if op.DeleteBatch? {
      DeleteBatchEffect(st, op.jtis);
    } else if op.Rotate? {
      RotateCapped(cfg, st, op);
    }
  }

  lemma {:induction false} CappedFrom(cfg: Config, st: Store, ops: seq<Op>)
    requires Capped(st) && PlainOps(ops)
    ensures Capped(Exec(cfg, st, ops))
    decreases |ops|
  {
    if ops != [] {
      CappedStep(cfg, st, ops[0]);
      assert PlainOps(ops[1..]);
      CappedFrom(cfg, Step(cfg, st, ops[0]).0, ops[1..]);
    }
  }

  /** In every state that plain sessions reach, on any clocks, no idle boundary passes the absolute one. */
  lemma IdleStaysCapped(cfg: Config, start: int, ops: seq<Op>, k: Jti)
    requires PlainOps(ops)
    ensures var st := Exec(cfg, EMPTY_STORE.(now := start), ops);
      k in st.records ==> CappedRecord(st.records[k])
  {
    CappedFrom(cfg, EMPTY_STORE.(now := start), ops);
  }

  // ---------------------------------------------------------------- deadlines and activity, with agreeing clocks

  /** A plain step whose application clock, where it uses one, equals the server's. */
  predicate PlainInStep(st: Store, op: Op) {
    PlainOp(op) && (op.Create? || op.Rotate? ==> op.appNow == st.now)
  }

  predicate PlainRun(cfg: Config, st: Store, ops: seq<Op>)
    decreases |ops|
  {
    ops == [] || (PlainInStep(st, ops[0]) && PlainRun(cfg, Step(cfg, st, ops[0]).0, ops[1..]))
  }

  predicate BoundedRecord(e: Entry, now: int) {
    && e.env.Plain?
    && var s := e.env.s;
    && s.createdAt <= s.lastAccessedAt <= now
    && s.lastAccessedAt < s.absoluteExpiresAt
    && (s.status != Revoked ==> e.deadline == s.absoluteExpiresAt)
  }

  predicate Bounded(st: Store) {
    forall k | k in st.records :: BoundedRecord(st.records[k], st.now)
  }

  lemma CreateBounded(cfg: Config, st: Store, j: Jti, profile: Profile, captured: Option<nat>)
    requires Bounded(st)
    ensures Bounded(CreateStep(cfg, st, false, j, st.now, profile, captured).0)
  {
  }

  lemma RotateBounded(cfg: Config, st: Store, op: Op)
    requires Bounded(st) && op.Rotate? && op.appNow == st.now
    ensures Bounded(Step(cfg, st, op).0)
  {
  }

  lemma BoundedStep(cfg: Config, st: Store, op: Op)
    requires Bounded(st) && PlainInStep(st, op)
    ensures Bounded(Step(cfg, st, op).0)
  {
    if op.Create? {
      CreateBounded(cfg, st, op.jti, op.profile, op.captured);
    } else if op.Rotate? {
      RotateBounded(cfg, st, op);
    } else if op.DeleteBatch? {
      DeleteBatchEffect(st, op.jtis);
    }
  }

  lemma {:induction false} BoundedFrom(cfg: Config, st: Store, ops: seq<Op>)
    requires Bounded(st) && PlainRun(cfg, st, ops)
    ensures Bounded(Exec(cfg, st, ops))
    decreases |ops|
  {
    if ops != [] {
      BoundedStep(cfg, st, ops[0]);
      BoundedFrom(cfg, Step(cfg, st, ops[0]).0, ops[1..]);
    }
  }

  /**
   * In every state that plain sessions reach with agreeing clocks, activity lies between creation and now
   * and before the absolute boundary, and Redis reclaims an active or consumed record exactly there.
   */
  lemma BoundariesHold(cfg: Config, start: int, ops: seq<Op>, k: Jti)
    requires PlainRun(cfg, EMPTY_STORE.(now := start), ops)
    ensures var st := Exec(cfg, EMPTY_STORE.(now := start), ops);
      k in st.records ==> BoundedRecord(st.records[k], st.now)
  {
    BoundedFrom(cfg, EMPTY_STORE.(now := start), ops);
  }

  predicate Touches(cfg: Config, st: Store, op: Op, k: Jti) {
    (op.Touch? || op.TouchEnc?) && op.jti == k && Step(cfg, st, op).1.touch == Touched
  }

  /** A successful touch never moves recorded activity back, unless forced on a clock that lags it. */
  lemma TouchNeverRegresses(cfg: Config, st: Store, op: Op, k: Jti)
    requires Touches(cfg, st, op, k)
    ensures k in st.records && k in Step(cfg, st, op).0.records
    ensures var la, la' := Mirror(st.records[k].env).la, Mirror(Step(cfg, st, op).0.records[k].env).la;
      (la' < la <==> op.Touch? && op.force && st.now < la) && (op.Touch? ==> la' == st.now)
  {
  }

  predicate ActiveSince(st: Store, k: Jti, t: int) {
    k in st.records ==> st.records[k].env.Plain? && st.records[k].env.s.lastAccessedAt >= t
  }

  lemma ActiveSinceStep(cfg: Config, st: Store, op: Op, k: Jti, t: int)
    requires ActiveSince(st, k, t) && t <= st.now && !Births(cfg, st, op, k)
    ensures ActiveSince(Step(cfg, st, op).0, k, t)
  {
    StepFate(cfg, st, op, k);
    if op.DeleteBatch? {
      DeleteBatchEffect(st, op.jtis);
    }
  }

  lemma {:induction false} ActiveSinceFrom(cfg: Config, st: Store, ops: seq<Op>, k: Jti, t: int)
    requires ActiveSince(st, k, t) && t <= st.now && NoBirth(cfg, st, ops, k)
    ensures ActiveSince(Exec(cfg, st, ops), k, t)
    decreases |ops|
  {
    if ops != [] {
      ActiveSinceStep(cfg, st, ops[0], k, t);
      Mortality.ClockAdvances(cfg, st, ops[0]);
      ActiveSinceFrom(cfg, Step(cfg, st, ops[0]).0, ops[1..], k, t);
    }
  }

  /**
   * An unforced plain touch writes at least the touch interval after any earlier touch of the same
   * incarnation, forced or not, whatever ran in between.
   */
  lemma TouchesAreSpaced(cfg: Config, st: Store, force: bool, mid: seq<Op>, k: Jti)
    requires Touches(cfg, st, Touch(k, force), k)
    requires NoBirth(cfg, Step(cfg, st, Touch(k, force)).0, mid, k)
    requires Touches(cfg, Exec(cfg, Step(cfg, st, Touch(k, force)).0, mid), Touch(k, false), k)
    ensures Exec(cfg, Step(cfg, st, Touch(k, force)).0, mid).now - st.now >= cfg.touchInterval
  {
    ActiveSinceFrom(cfg, Step(cfg, st, Touch(k, force)).0, mid, k, st.now);
  }
}
