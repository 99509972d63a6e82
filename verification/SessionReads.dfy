/**
 * Runs in which every encrypted call read what was really stored, however long ago: what the mirrors
 * and the payload then always share, and the one field in which a raced touch can tear them apart.
 */
module SessionReads {
  import opened Wrappers
  import opened SessionTypes
  import opened SortedSet
  import opened SessionScripts
  import opened SessionSystem
  import opened SessionEvolution
  import opened SessionBoundaries
  import opened SessionRefinement

  function ReadBy(op: Op): Option<Envelope> {
    if op.TouchEnc? || op.RotateEnc? || op.UpdateEnc? || op.RevokeEnc? then op.read else None
  }

  /** The read of `op` was the stored record after i steps, and the session is still the same incarnation. */
  predicate ReadAt(cfg: Config, start: Store, past: seq<Op>, op: Op, i: nat)
    requires i <= |past| && ReadBy(op).Some?
  {
    var before := Exec(cfg, start, past[..i]);
    ReadOf(before, op.jti) == ReadBy(op) && NoBirth(cfg, before, past[i..], op.jti)
  }

  predicate Genuine(cfg: Config, start: Store, past: seq<Op>, op: Op) {
    ReadBy(op).Some? ==> exists i :: 0 <= i <= |past| && ReadAt(cfg, start, past, op, i)
  }

  predicate GenuineRun(cfg: Config, start: Store, past: seq<Op>, ops: seq<Op>)
    decreases |ops|
  {
    ops == [] || (Genuine(cfg, start, past, ops[0]) && GenuineRun(cfg, start, past + [ops[0]], ops[1..]))
  }

  // ---------------------------------------------------------------- what mirrors and payload share

  predicate Capped(idle: Option<int>, exp: int) {
    idle.Some? ==> idle.value <= exp
  }

  /** Same boundary and status, idle boundaries within it, and no rotation fields while active. */
  predicate AlignedEnvelope(env: Envelope) {
    var h, r := Mirror(env), Content(env);
    && h.exp == r.absoluteExpiresAt && h.st == r.status
    && Capped(h.idle, h.exp) && Capped(r.idleExpiresAt, r.absoluteExpiresAt)
    && (h.st == Active ==> h.rn.None? && h.rj.None? && r.rotationNonceHash.None? && r.rotatedTo.None?)
  }

  predicate Aligned(st: Store) {
    forall k | k in st.records :: AlignedEnvelope(st.records[k].env)
  }

  /** What a genuine read guarantees when it is used. */
  predicate UsableRead(st: Store, op: Op) {
    ReadBy(op).Some? ==>
      && AlignedEnvelope(ReadBy(op).value)
      && (op.jti in st.records ==> Mirror(ReadBy(op).value).exp == Mirror(st.records[op.jti].env).exp)
  }

  lemma RotateAligned(cfg: Config, st: Store, op: Op)
    requires Aligned(st) && UsableRead(st, op) && (op.Rotate? || op.RotateEnc?)
    ensures Aligned(Step(cfg, st, op).0)
  {
  }

  lemma TouchAligned(cfg: Config, st: Store, op: Op)
    requires Aligned(st) && UsableRead(st, op) && (op.Touch? || op.TouchEnc?)
    ensures Aligned(Step(cfg, st, op).0)
  {
  }

  lemma UpdateAligned(cfg: Config, st: Store, op: Op)
    requires Aligned(st) && UsableRead(st, op) && (op.Update? || op.UpdateEnc?)
    ensures Aligned(Step(cfg, st, op).0)
  {
  }

  lemma RevokeAligned(cfg: Config, st: Store, op: Op)
    requires Aligned(st) && UsableRead(st, op) && (op.Revoke? || op.RevokeEnc?)
    ensures Aligned(Step(cfg, st, op).0)
  {
  }

  lemma CreateAligned(cfg: Config, st: Store, op: Op)
    requires Aligned(st) && op.Create?
    ensures Aligned(Step(cfg, st, op).0)
  {
  }

  /** The steps that only remove records, or none. */
  lemma RemovalAligned(cfg: Config, st: Store, op: Op)
    requires Aligned(st)
    requires op.Tick? || op.Reclaim? || op.ReclaimClaim? || op.SetSecurityVersion? || op.Validate? || op.Destroy?
             || op.EnforceLimit? || op.CleanupIndex? || op.DeleteBatch?
    ensures Aligned(Step(cfg, st, op).0)
  {
    if op.DeleteBatch? {
      DeleteBatchEffect(st, op.jtis);
    }
  }

  lemma AlignedStep(cfg: Config, st: Store, op: Op)
    requires Aligned(st) && UsableRead(st, op)
    ensures Aligned(Step(cfg, st, op).0)
  {
    if op.Create? {
      CreateAligned(cfg, st, op);
    } else if op.Rotate? || op.RotateEnc? {
      RotateAligned(cfg, st, op);
    } else if op.Touch? || op.TouchEnc? {
      TouchAligned(cfg, st, op);
    } else if op.Update? || op.UpdateEnc? {
      UpdateAligned(cfg, st, op);
    } else if op.Revoke? || op.RevokeEnc? {
      RevokeAligned(cfg, st, op);
    } else {
      RemovalAligned(cfg, st, op);
    }
  }

  // ---------------------------------------------------------------- over a run

  /** Every state on the way, the last one included, is aligned. */
  predicate AlignedSoFar(cfg: Config, start: Store, past: seq<Op>) {
    forall i | 0 <= i <= |past| :: Aligned(Exec(cfg, start, past[..i]))
  }

  /** Within one incarnation the boundary does not move, so the read still has it. */
  lemma EarlierIsUsable(cfg: Config, earlier: Store, rest: seq<Op>, op: Op)
    requires ReadBy(op).Some? && ReadOf(earlier, op.jti) == ReadBy(op) && Aligned(earlier)
    requires NoBirth(cfg, earlier, rest, op.jti)
    ensures UsableRead(Exec(cfg, earlier, rest), op)
  {
    if op.jti in Exec(cfg, earlier, rest).records {
      ExpiryIsFixed(cfg, earlier, rest, op.jti);
    }
  }

  lemma ExecSplit(cfg: Config, start: Store, ops: seq<Op>, i: nat)
    requires i <= |ops|
    ensures Exec(cfg, start, ops) == Exec(cfg, Exec(cfg, start, ops[..i]), ops[i..])
  {
    ExecAppend(cfg, start, ops[..i], ops[i..]);
    assert ops[..i] + ops[i..] == ops;
  }

  lemma GenuineIsUsable(cfg: Config, start: Store, past: seq<Op>, op: Op)
    requires AlignedSoFar(cfg, start, past) && Genuine(cfg, start, past, op)
    ensures UsableRead(Exec(cfg, start, past), op)
  {
    if ReadBy(op).Some? {
      var i :| 0 <= i <= |past| && ReadAt(cfg, start, past, op, i);
      ExecSplit(cfg, start, past, i);
      EarlierIsUsable(cfg, Exec(cfg, start, past[..i]), past[i..], op);
    }
  }

  lemma AlignedNext(cfg: Config, start: Store, past: seq<Op>, op: Op)
    requires AlignedSoFar(cfg, start, past) && Genuine(cfg, start, past, op)
    ensures AlignedSoFar(cfg, start, past + [op])
  {
    GenuineIsUsable(cfg, start, past, op);
    assert past[..|past|] == past;
    AlignedStep(cfg, Exec(cfg, start, past), op);
    ExecLast(cfg, start, past, op);
    forall i | 0 <= i <= |past| + 1 ensures Aligned(Exec(cfg, start, (past + [op])[..i])) {
      if i <= |past| {
        assert (past + [op])[..i] == past[..i];
      } else {
        assert (past + [op])[..i] == past + [op];
      }
    }
  }

  lemma {:induction false} AlignedFrom(cfg: Config, start: Store, past: seq<Op>, ops: seq<Op>)
    requires AlignedSoFar(cfg, start, past) && GenuineRun(cfg, start, past, ops)
    ensures AlignedSoFar(cfg, start, past + ops)
    decreases |ops|
  {
    if ops == [] {
      assert past + ops == past;
    } else {
      AlignedNext(cfg, start, past, ops[0]);
      AlignedFrom(cfg, start, past + [ops[0]], ops[1..]);
      assert past + [ops[0]] + ops[1..] == past + ops;
    }
  }

  /**
   * In every state reached with genuine reads, however stale, and on any clocks: mirrors and payload have
   * the same boundary and status, and neither lets an idle boundary pass the absolute one.
   */
  lemma MirrorsStayAligned(cfg: Config, start: int, ops: seq<Op>)
    requires GenuineRun(cfg, EMPTY_STORE.(now := start), [], ops)
    ensures AlignedSoFar(cfg, EMPTY_STORE.(now := start), ops)
  {
    var st := EMPTY_STORE.(now := start);
    assert Exec(cfg, st, []) == st;
    AlignedFrom(cfg, st, [], ops);
    assert [] + ops == ops;
  }

  // ---------------------------------------------------------------- what a race can tear apart

  lemma TouchTearsVersionOnly(cfg: Config, st: Store, op: Op)
    requires op.TouchEnc? && op.read.Some? && Aligned(st) && UsableRead(st, op)
    requires Step(cfg, st, op).1 == TouchOut(Touched)
    ensures var st' := Step(cfg, st, op).0;
      && op.jti in st'.records && op.jti in st.records
      && (st'.records[op.jti].env == Seal(Content(st'.records[op.jti].env)) <==>
            Content(op.read.value).version == Mirror(st.records[op.jti].env).ver)
  {
    RacedTouchFailsClosed(cfg, st, op.jti, op.force, op.read.value, op.appNow);
    assert AlignedEnvelope(st.records[op.jti].env);
  }

  /** After a genuine run, a genuine touch leaves agreeing mirrors exactly if the version had not moved since. */
  lemma GenuineTouchDiffersInVersion(cfg: Config, start: int, past: seq<Op>, op: Op)
    requires var st := EMPTY_STORE.(now := start); GenuineRun(cfg, st, [], past) && Genuine(cfg, st, past, op)
    requires op.TouchEnc? && op.read.Some?
    requires Step(cfg, Exec(cfg, EMPTY_STORE.(now := start), past), op).1 == TouchOut(Touched)
    ensures var st := Exec(cfg, EMPTY_STORE.(now := start), past); var st' := Step(cfg, st, op).0;
      && op.jti in st'.records && op.jti in st.records
      && (st'.records[op.jti].env == Seal(Content(st'.records[op.jti].env)) <==>
            Content(op.read.value).version == Mirror(st.records[op.jti].env).ver)
  {
    var st := EMPTY_STORE.(now := start);
    MirrorsStayAligned(cfg, start, past);
    assert past[..|past|] == past;
    GenuineIsUsable(cfg, st, past, op);
    TouchTearsVersionOnly(cfg, Exec(cfg, st, past), op);
  }

  /** A genuine update always leaves agreeing mirrors: it can lose a write, but not tear the record. */
  lemma GenuineUpdateSeals(cfg: Config, start: int, past: seq<Op>, op: Op)
    requires var st := EMPTY_STORE.(now := start); GenuineRun(cfg, st, [], past) && Genuine(cfg, st, past, op)
    requires op.UpdateEnc? && op.read.Some?
    requires Step(cfg, Exec(cfg, EMPTY_STORE.(now := start), past), op).1.update.Updated?
    ensures var st' := Step(cfg, Exec(cfg, EMPTY_STORE.(now := start), past), op).0;
      op.jti in st'.records && st'.records[op.jti].env == Seal(Content(st'.records[op.jti].env))
  {
    var st := EMPTY_STORE.(now := start);
    MirrorsStayAligned(cfg, start, past);
    assert past[..|past|] == past;
    GenuineIsUsable(cfg, st, past, op);
    UpdateSeals(cfg, Exec(cfg, st, past), op);
  }

  lemma UpdateSeals(cfg: Config, st: Store, op: Op)
    requires op.UpdateEnc? && op.read.Some? && Aligned(st) && UsableRead(st, op)
    requires Step(cfg, st, op).1.update.Updated?
    ensures var st' := Step(cfg, st, op).0;
      op.jti in st'.records && st'.records[op.jti].env == Seal(Content(st'.records[op.jti].env))
  {
    RacedUpdateOverwrites(cfg, st, op.jti, op.expected, op.patch, op.read.value, op.appNow);
    assert AlignedEnvelope(st.records[op.jti].env);
  }
}
