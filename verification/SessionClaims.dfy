/** Idempotent creation over whole runs: how long a create is answered as a replay, and by what. */
module SessionClaims {
  import opened Wrappers
  import opened SessionTypes
  import opened SessionScripts
  import opened SessionSystem
  import opened SessionEvolution
  import opened SessionAnswers
  import Replay = SessionReplay
  import Mortality = SessionMortality

  /** A create of `j` that no claim answers. */
  predicate SetsClaim(cfg: Config, st: Store, op: Op, j: Jti) {
    && cfg.enableCreateIdempotency && op.Create? && op.jti == j
    && !Step(cfg, st, op).1.create.CreateReplayed?
  }

  /** A minute, or the lifetime of the session if that is shorter. */
  function ClaimEnd(cfg: Config, now: int): int {
    now + Min(60, cfg.ttl)
  }

  /** It leaves a claim, whether it stored the session or found the id taken; a collision changes nothing else. */
  lemma CreateClaims(cfg: Config, st: Store, op: Op)
    requires op.Create?
    ensures var (st', out) := Step(cfg, st, op);
      && st'.claims == (if SetsClaim(cfg, st, op, op.jti)
                        then st.claims[op.jti := Claim(op.jti, ClaimEnd(cfg, st.now))] else st.claims)
      && (out.create.CreateReplayed? ==> st' == st)
      && (out.create.CreateCollision? ==> st' == st.(claims := st'.claims))
  {
  }

  lemma ClaimsKept(cfg: Config, st: Store, op: Op)
    requires !op.Create? && !op.ReclaimClaim?
    ensures Step(cfg, st, op).0.claims == st.claims
  {
    if op.DeleteBatch? {
      DeleteBatchEffect(st, op.jtis);
    }
  }

  /** A claim is never changed, and dropped only from its deadline on; a new one is set by a create of its id. */
  lemma ClaimStep(cfg: Config, st: Store, op: Op, j: Jti)
    ensures var st' := Step(cfg, st, op).0;
      && (j in st.claims && j in st'.claims ==> st'.claims[j] == st.claims[j])
      && (j in st.claims && st.now < st.claims[j].deadline ==> j in st'.claims)
      && (j !in st.claims && j in st'.claims ==>
            SetsClaim(cfg, st, op, j) && st'.claims[j] == Claim(j, ClaimEnd(cfg, st.now)))
  {
    if op.Create? {
      CreateClaims(cfg, st, op);
    } else if !op.ReclaimClaim? {
      ClaimsKept(cfg, st, op);
    }
  }

  lemma {:induction false} ClaimStays(cfg: Config, st: Store, ops: seq<Op>, j: Jti)
    requires j in st.claims && Exec(cfg, st, ops).now < st.claims[j].deadline
    ensures var late := Exec(cfg, st, ops); j in late.claims && late.claims[j] == st.claims[j]
    decreases |ops|
  {
    if ops != [] {
      Replay.ClockOnlyAdvances(cfg, st, ops);
      ClaimStep(cfg, st, ops[0], j);
      ClaimStays(cfg, Step(cfg, st, ops[0]).0, ops[1..], j);
    }
  }

  /**
   * After a create of `j`, every create of `j` within the claim's time is answered as a replay and changes
   * nothing, whatever runs in between and even if the session has gone again.
   */
  lemma CreateIsIdempotent(cfg: Config, st: Store, first: Op, ops: seq<Op>, retry: Op)
    requires first.Create? && SetsClaim(cfg, st, first, first.jti)
    requires Exec(cfg, Step(cfg, st, first).0, ops).now < st.now + Min(60, cfg.ttl)
    requires retry.Create? && retry.jti == first.jti
    ensures var late := Exec(cfg, Step(cfg, st, first).0, ops);
      Step(cfg, late, retry) == (late, CreateOut(CreateReplayed(first.jti)))
  {
    var after := Step(cfg, st, first).0;
    CreateClaims(cfg, st, first);
    ClaimStays(cfg, after, ops, first.jti);
    var late := Exec(cfg, after, ops);
    CreateAnswers(cfg, late, retry.encrypted, retry.jti, retry.appNow, retry.profile, retry.captured);
    CreateClaims(cfg, late, retry);
  }

  /** From the deadline on Redis may drop the claim; then a create collides if the record is there, or creates it. */
  lemma ClaimLapses(cfg: Config, st: Store, retry: Op)
    requires retry.Create?
    ensures var reply := Step(cfg, Step(cfg, st, ReclaimClaim(retry.jti)).0, retry).1.create;
      var held := cfg.enableCreateIdempotency && retry.jti in st.claims && st.now < st.claims[retry.jti].deadline;
      && (reply.CreateReplayed? <==> held)
      && (reply.CreateCollision? <==> !held && retry.jti in st.records)
      && (reply.Created? <==> !held && retry.jti !in st.records)
  {
    var st' := Step(cfg, st, ReclaimClaim(retry.jti)).0;
    CreateAnswers(cfg, st', retry.encrypted, retry.jti, retry.appNow, retry.profile, retry.captured);
  }

  /**
   * A create of a stored session whose claim has gone collides, and leaves a claim of its own: within that
   * claim's time the next attempt is answered as a replay, though neither of the two created anything.
   */
  lemma CollisionThenReplay(cfg: Config, st: Store, late: Op, ops: seq<Op>, again: Op)
    requires cfg.enableCreateIdempotency && late.Create? && again.Create? && late.jti == again.jti
    requires late.jti in st.records && late.jti !in st.claims
    requires Exec(cfg, Step(cfg, st, late).0, ops).now < st.now + Min(60, cfg.ttl)
    ensures Step(cfg, st, late).1 == CreateOut(CreateCollision)
    ensures Step(cfg, Exec(cfg, Step(cfg, st, late).0, ops), again).1 == CreateOut(CreateReplayed(late.jti))
  {
    CreateAnswers(cfg, st, late.encrypted, late.jti, late.appNow, late.profile, late.captured);
    CreateIsIdempotent(cfg, st, late, ops, again);
  }

  // ---------------------------------------------------------------- where a replay comes from

  /** Step `i` of the run set the claim on `j` that is there at the end. */
  predicate ClaimedAt(cfg: Config, st: Store, ops: seq<Op>, i: nat, j: Jti) {
    && i < |ops|
    && var mid, late := Exec(cfg, st, ops[..i]), Exec(cfg, st, ops);
    && SetsClaim(cfg, mid, ops[i], j)
    && j in late.claims && late.claims[j] == Claim(j, ClaimEnd(cfg, mid.now))
  }

  lemma {:induction false} ClaimHasOrigin(cfg: Config, st: Store, ops: seq<Op>, j: Jti) returns (i: nat)
    requires j !in st.claims && j in Exec(cfg, st, ops).claims
    ensures ClaimedAt(cfg, st, ops, i, j)
    decreases |ops|
  {
    var n := |ops| - 1;
    assert ops == ops[..n] + [ops[n]];
    ExecLast(cfg, st, ops[..n], ops[n]);
    ClaimStep(cfg, Exec(cfg, st, ops[..n]), ops[n], j);
    if j in Exec(cfg, st, ops[..n]).claims {
      i := ClaimHasOrigin(cfg, st, ops[..n], j);
      assert ops[..n][..i] == ops[..i];
    } else {
      i := n;
    }
  }

  /**
   * For a user without claims, a create is answered as a replay only of its own id, and only if an earlier
   * create of that id, which was not one itself, set the claim.
   */
  lemma ReplayHasOrigin(cfg: Config, st: Store, ops: seq<Op>, retry: Op)
    requires st.claims == map[] && retry.Create?
    requires Step(cfg, Exec(cfg, st, ops), retry).1.create.CreateReplayed?
    ensures Step(cfg, Exec(cfg, st, ops), retry).1.create.jti == retry.jti
    ensures exists i :: ClaimedAt(cfg, st, ops, i, retry.jti)
  {
    var late := Exec(cfg, st, ops);
    CreateAnswers(cfg, late, retry.encrypted, retry.jti, retry.appNow, retry.profile, retry.captured);
    var i := ClaimHasOrigin(cfg, st, ops, retry.jti);
  }
}
