/** Which ends of a session are final, and the one step that can undo an idle end. */
module SessionMortality {
  import opened Wrappers
  import opened SessionTypes
  import opened SessionScripts
  import opened SessionSystem
  import opened SessionEvolution

  predicate Live(st: Store, k: Jti) {
    k in st.records && LiveAt(Mirror(st.records[k].env), st.now)
  }

  /** Missing, consumed, revoked, or past the absolute boundary. */
  predicate Ended(st: Store, k: Jti) {
    k in st.records ==>
      var h := Mirror(st.records[k].env); h.st != Active || h.exp <= st.now
  }

  /** validate.lua hands out a record, or stops at the security version, exactly when it is live. */
  lemma ValidateMeansLive(st: Store, k: Jti)
    ensures var reply := ValidateScript(st, k).1;
      && (reply.ValidateRead? || reply.ValidateSecurity? <==> Live(st, k))
      && (reply.ValidateRead? ==> reply.env == st.records[k].env)
  {
  }

  lemma ClockAdvances(cfg: Config, st: Store, op: Op)
    ensures st.now <= Step(cfg, st, op).0.now
  {
    match op
    case DeleteBatch(js) => DeleteBatchEffect(st, js);
    case _ =>
  }

  lemma EndedStep(cfg: Config, st: Store, op: Op, k: Jti)
    requires Ended(st, k) && !Births(cfg, st, op, k)
    ensures Ended(Step(cfg, st, op).0, k)
  {
    StepFate(cfg, st, op, k);
    ClockAdvances(cfg, st, op);
  }

  /**
   * Consumed, revoked, absolutely expired and deleted sessions never validate again until a
   * create or a rotation brings that id to life, whatever runs in between on either path.
   */
  lemma {:induction false} EndIsFinal(cfg: Config, st: Store, ops: seq<Op>, k: Jti)
    requires Ended(st, k) && NoBirth(cfg, st, ops, k)
    ensures Ended(Exec(cfg, st, ops), k) && !Live(Exec(cfg, st, ops), k)
    decreases |ops|
  {
    if ops != [] {
      EndedStep(cfg, st, ops[0], k);
      EndIsFinal(cfg, Step(cfg, st, ops[0]).0, ops[1..], k);
    }
  }

  predicate RotatesFrom(op: Op, k: Jti) {
    (op.Rotate? || op.RotateEnc?) && op.jti == k
  }

  lemma RotationEnds(cfg: Config, st: Store, op: Op)
    requires (op.Rotate? || op.RotateEnc?) && Step(cfg, st, op).1.rotate.Rotated?
    ensures !Ended(st, op.jti) && op.jti in st.records
    ensures Ended(Step(cfg, st, op).0, op.jti)
  {
  }

  /** Once one rotation of a session succeeds, no later one does: concurrent rotations have one winner. */
  lemma OneRotationWins(cfg: Config, st: Store, first: Op, mid: seq<Op>, second: Op, k: Jti)
    requires RotatesFrom(first, k) && RotatesFrom(second, k)
    requires Step(cfg, st, first).1.rotate.Rotated?
    requires NoBirth(cfg, Step(cfg, st, first).0, mid, k)
    ensures !Step(cfg, Exec(cfg, Step(cfg, st, first).0, mid), second).1.rotate.Rotated?
  {
    var after := Step(cfg, st, first).0;
    RotationEnds(cfg, st, first);
    EndIsFinal(cfg, after, mid, k);
    var late := Exec(cfg, after, mid);
    if Step(cfg, late, second).1.rotate.Rotated? {
      RotationEnds(cfg, late, second);
    }
  }

  /**
   * The guard under which a step makes a dead record live: an encrypted update of that record whose
   * read, however old, passes the application's checks and carries an idle boundary still ahead.
   */
  predicate Revives(st: Store, op: Op, k: Jti) {
    && op.UpdateEnc? && op.jti == k && op.read.Some?
    && k in st.records && st.records[k].env.Encrypted?
    && var h, r := st.records[k].env.header, Content(op.read.value);
    && h.st == Active && st.now < h.exp
    && r.status == Active && op.appNow < r.absoluteExpiresAt
    && (op.expected.Some? ==> h.ver == r.version == op.expected.value)
    && (r.idleExpiresAt.Some? ==> st.now < r.idleExpiresAt.value)
  }

  lemma UpdateRevival(cfg: Config, st: Store, op: Op, k: Jti)
    requires !Live(st, k) && op.UpdateEnc?
    ensures Live(Step(cfg, st, op).0, k) <==> Revives(st, op, k)
  {
  }

  lemma NoOtherRevival(cfg: Config, st: Store, op: Op, k: Jti)
    requires !Live(st, k) && !op.UpdateEnc? && !Births(cfg, st, op, k)
    ensures !Live(Step(cfg, st, op).0, k)
  {
    StepFate(cfg, st, op, k);
    ClockAdvances(cfg, st, op);
    if op.DeleteBatch? {
      DeleteBatchEffect(st, op.jtis);
    }
  }

  /** A dead record becomes live in one step exactly by a birth that survives it, or by such an update. */
  lemma RevivalStep(cfg: Config, st: Store, op: Op, k: Jti)
    requires !Live(st, k) && !Births(cfg, st, op, k)
    ensures Live(Step(cfg, st, op).0, k) <==> Revives(st, op, k)
  {
    if op.UpdateEnc? {
      UpdateRevival(cfg, st, op, k);
    } else {
      NoOtherRevival(cfg, st, op, k);
    }
  }

  predicate NoEncryptedUpdate(ops: seq<Op>, k: Jti) {
    forall i | 0 <= i < |ops| :: !(ops[i].UpdateEnc? && ops[i].jti == k)
  }

  /** Without encrypted updates every end is final, the idle one included. */
  lemma {:induction false} DeathIsFinal(cfg: Config, st: Store, ops: seq<Op>, k: Jti)
    requires !Live(st, k) && NoBirth(cfg, st, ops, k) && NoEncryptedUpdate(ops, k)
    ensures !Live(Exec(cfg, st, ops), k)
    decreases |ops|
  {
    if ops != [] {
      RevivalStep(cfg, st, ops[0], k);
      assert NoEncryptedUpdate(ops[1..], k);
      DeathIsFinal(cfg, Step(cfg, st, ops[0]).0, ops[1..], k);
    }
  }

  const TEN_SECONDS_IDLE: Config := Settings(100, Some(10), 0, 0, 1, 0, 1, true, false)

  const NO_PROFILE := Profile(None, None, None, None)

  const NO_PATCH := Patch(None, None, None, None)

  /**
   * A run in which an encrypted session dies of idleness and a late update revives it: two clients
   * read the record, one before and one after a touch, and write it back in the other order.
   */
  lemma IdleDeathCanBeUndone(k: Jti)
    ensures var cfg := TEN_SECONDS_IDLE;
      var s1 := Step(cfg, EMPTY_STORE, Create(true, k, 0, NO_PROFILE, None)).0;
      var s2 := Step(cfg, s1, Tick(5)).0;
      && k in s1.records && var early := Some(s1.records[k].env);
      var s3 := Step(cfg, s2, TouchEnc(k, false, early, 5)).0;
      && k in s3.records && var late := Some(s3.records[k].env);
      var s4 := Step(cfg, s3, UpdateEnc(k, None, NO_PATCH, early, 5)).0;
      var s5 := Step(cfg, s4, Tick(6)).0;
      var s6 := Step(cfg, s5, UpdateEnc(k, None, NO_PATCH, late, 11)).0;
      Live(s4, k) && k in s5.records && !Live(s5, k) && Live(s6, k)
  {
    var cfg := TEN_SECONDS_IDLE;
    var s1 := Step(cfg, EMPTY_STORE, Create(true, k, 0, NO_PROFILE, None)).0;
    assert s1.records == map[k := Entry(Seal(NewRecord(cfg, k, 0, NO_PROFILE, None)), 100)];
    var s2 := Step(cfg, s1, Tick(5)).0;
    var s3 := Step(cfg, s2, TouchEnc(k, false, Some(s1.records[k].env), 5)).0;
    assert Mirror(s3.records[k].env).idle == Some(15);
    var s4 := Step(cfg, s3, UpdateEnc(k, None, NO_PATCH, Some(s1.records[k].env), 5)).0;
    assert Mirror(s4.records[k].env).idle == Some(10);
    var s5 := Step(cfg, s4, Tick(6)).0;
    var last := UpdateEnc(k, None, NO_PATCH, Some(s3.records[k].env), 11);
    assert Revives(s5, last, k);
    RevivalStep(cfg, s5, last, k);
  }
}
