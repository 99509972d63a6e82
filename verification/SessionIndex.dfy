/** The user index agrees with the records, and never outgrows the session limit. */
module SessionIndex {
  import opened Wrappers
  import opened SessionTypes
  import opened SortedSet
  import opened SessionScripts
  import opened SessionSystem
  import opened SessionEvolution

  /** Every active record is indexed, no consumed record is, and a plain record knows its own id. */
  ghost predicate Agrees(st: Store) {
    forall k | k in st.records ::
      && (Mirror(st.records[k].env).st == Active ==> k in st.index)
      && (Mirror(st.records[k].env).st == Consumed ==> k !in st.index)
      && (st.records[k].env.Plain? ==> st.records[k].env.s.jti == k)
  }

  lemma EvictAgrees(st: Store, gone: set<Jti>)
    requires Agrees(st)
    ensures Agrees(Evict(st, gone))
  {
  }

  lemma AddAgrees(st: Store, j: Jti, env: Envelope, ttl: int, score: int)
    requires Agrees(st) && Mirror(env).st == Active && (env.Plain? ==> env.s.jti == j)
    ensures Agrees(Zadd(Put(st, j, env, ttl), j, score))
  {
  }

  lemma AdmitAgrees(cfg: Config, st: Store, env: Envelope, j: Jti, createdAt: int, ttl: int)
    requires Agrees(st) && Mirror(env).st == Active && (env.Plain? ==> env.s.jti == j)
    ensures Agrees(Admit(cfg, st, env, j, createdAt, ttl).0)
  {
    AddAgrees(st, j, env, ttl, createdAt);
    EvictAgrees(Zadd(Put(st, j, env, ttl), j, createdAt),
                Surplus(st.index[j := createdAt], cfg.maxSessionsPerUser, cfg.maxEvictionsPerCall));
  }

  lemma CreateAgrees(cfg: Config, st: Store, encrypted: bool, j: Jti, appNow: int, profile: Profile,
                     captured: Option<nat>)
    requires Agrees(st)
    ensures Agrees(CreateStep(cfg, st, encrypted, j, appNow, profile, captured).0)
  {
    var r := NewRecord(cfg, j, appNow, profile, captured);
    var ttl := Max(1, r.absoluteExpiresAt - appNow);
    AdmitAgrees(cfg, Claimed(cfg, st, j, ttl), if encrypted then Seal(r) else Plain(r), j, appNow, ttl);
  }

  lemma RotateAgrees(cfg: Config, st: Store, op: Op)
    requires Agrees(st) && (op.Rotate? || op.RotateEnc?)
    ensures Agrees(Step(cfg, st, op).0)
  {
  }

  lemma TouchAgrees(cfg: Config, st: Store, op: Op)
    requires Agrees(st) && (op.Touch? || op.TouchEnc?)
    ensures Agrees(Step(cfg, st, op).0)
  {
  }

  lemma UpdateAgrees(cfg: Config, st: Store, op: Op)
    requires Agrees(st) && (op.Update? || op.UpdateEnc?)
    ensures Agrees(Step(cfg, st, op).0)
  {
  }

  lemma RevokeAgrees(cfg: Config, st: Store, op: Op)
    requires Agrees(st) && (op.Revoke? || op.RevokeEnc?)
    ensures Agrees(Step(cfg, st, op).0)
  {
  }

  lemma RemovalAgrees(cfg: Config, st: Store, op: Op)
    requires Agrees(st)
    requires op.Tick? || op.Reclaim? || op.ReclaimClaim? || op.SetSecurityVersion? || op.Validate? || op.Destroy?
             || op.EnforceLimit? || op.CleanupIndex?
    ensures Agrees(Step(cfg, st, op).0)
  {
    if op.CleanupIndex? {
      StaleHaveNoRecord(st.records, op.jtis);
    } else if op.EnforceLimit? {
      EvictAgrees(st, EnforceLimitScript(cfg, st).1);
    }
  }

  lemma {:induction false} StaleHaveNoRecord(records: map<Jti, Entry>, js: seq<Jti>)
    ensures forall k :: k in Stale(records, js) <==> k in js && k !in records
  {
    if js != [] {
      StaleHaveNoRecord(records, js[1..]);
      assert js == [js[0]] + js[1..];
    }
  }

  ghost function ActiveIds(st: Store): set<Jti> {
    set k | k in st.records && Mirror(st.records[k].env).st == Active
  }

  /** A delete-by-user batch drops the whole index, so it keeps the agreement exactly if it lists all that is active. */
  lemma BatchAgreesExactly(st: Store, js: seq<Jti>)
    requires Agrees(st)
    ensures Agrees(DeleteBatchScript(st, js).0) <==> ActiveIds(st) <= Elems(js)
  {
    DeleteBatchEffect(st, js);
    var st' := Del(st, Elems(js)).(index := map[]);
    forall k | !(ActiveIds(st) <= Elems(js)) && k in ActiveIds(st) - Elems(js) ensures !Agrees(st') {
      assert k in st'.records && Mirror(st'.records[k].env).st == Active;
    }
  }

  /** The batch, if the step is one, lists every active session. */
  ghost predicate Unraced(st: Store, op: Op) {
    op.DeleteBatch? ==> ActiveIds(st) <= Elems(op.jtis)
  }

  /** A step keeps the agreement exactly if it is not a raced batch. */
  lemma AgreesStep(cfg: Config, st: Store, op: Op)
    requires Agrees(st)
    ensures Agrees(Step(cfg, st, op).0) <==> Unraced(st, op)
  {
    if op.Create? {
      CreateAgrees(cfg, st, op.encrypted, op.jti, op.appNow, op.profile, op.captured);
    } else if op.Rotate? || op.RotateEnc? {
      RotateAgrees(cfg, st, op);
    } else if op.Touch? || op.TouchEnc? {
      TouchAgrees(cfg, st, op);
    } else if op.Update? || op.UpdateEnc? {
      UpdateAgrees(cfg, st, op);
    } else if op.Revoke? || op.RevokeEnc? {
      RevokeAgrees(cfg, st, op);
    } else if op.DeleteBatch? {
      BatchAgreesExactly(st, op.jtis);
    } else {
      RemovalAgrees(cfg, st, op);
    }
  }

  ghost predicate UnracedRun(cfg: Config, st: Store, ops: seq<Op>)
    decreases |ops|
  {
    ops == [] || (Unraced(st, ops[0]) && UnracedRun(cfg, Step(cfg, st, ops[0]).0, ops[1..]))
  }

  lemma {:induction false} AgreesAlways(cfg: Config, st: Store, ops: seq<Op>)
    requires Agrees(st) && UnracedRun(cfg, st, ops)
    ensures Agrees(Exec(cfg, st, ops))
    decreases |ops|
  {
    if ops != [] {
      AgreesStep(cfg, st, ops[0]);
      AgreesAlways(cfg, Step(cfg, st, ops[0]).0, ops[1..]);
    }
  }

  // ---------------------------------------------------------------- the session ceiling

  lemma MapSize<V>(z: map<Jti, V>, keys: set<Jti>, k: Jti, v: V)
    ensures |z - keys| <= |z|
    ensures k in z ==> |z - {k}| == |z| - 1
    ensures |z[k := v]| == |z| + (if k in z then 0 else 1)
  {
    assert (z - keys).Keys == z.Keys - keys;
    assert (z - {k}).Keys == z.Keys - {k};
    assert z[k := v].Keys == z.Keys + {k};
  }

  lemma SurplusSize(index: map<Jti, int>, limit: nat, bound: nat)
    requires limit > 0 && bound >= 1
    ensures |index - Surplus(index, limit, bound)| == Max(Min(|index|, limit), |index| - bound)
  {
    if |index| > limit {
      OldestCount(index, Min(|index| - limit, bound));
    } else {
      assert index - {} == index;
    }
  }

  lemma CreateCeiling(cfg: Config, st: Store, encrypted: bool, j: Jti, appNow: int, profile: Profile,
                      captured: Option<nat>)
    requires 0 < cfg.maxSessionsPerUser && |st.index| <= cfg.maxSessionsPerUser
    ensures |CreateStep(cfg, st, encrypted, j, appNow, profile, captured).0.index| <= cfg.maxSessionsPerUser
  {
    MapSize(st.index, {}, j, appNow);
    SurplusSize(st.index[j := appNow], cfg.maxSessionsPerUser, cfg.maxEvictionsPerCall);
  }

  lemma RotateIndex(cfg: Config, st: Store, op: Op)
    requires Agrees(st) && (op.Rotate? || op.RotateEnc?)
    ensures var z := Step(cfg, st, op).0.index;
      z == st.index || z == st.index - {op.jti} ||
      (op.jti in st.index && z == (st.index - {op.jti})[op.succ := st.now])
  {
  }

  /** A rotation exchanges one member for another, because the session it consumes was indexed. */
  lemma RotateKeepsSize(cfg: Config, st: Store, op: Op)
    requires Agrees(st) && (op.Rotate? || op.RotateEnc?)
    ensures |Step(cfg, st, op).0.index| <= |st.index|
  {
    RotateIndex(cfg, st, op);
    MapSize(st.index, {op.jti}, op.jti, 0);
    MapSize(st.index - {op.jti}, {}, op.succ, st.now);
  }

  function Dropped(cfg: Config, st: Store, op: Op): set<Jti> {
    if op.Validate? && op.jti in st.records && ValidateScript(st, op.jti).0 != st then
      {CleanupMember(st.records[op.jti].env, op.jti)}
    else if op.Destroy? then {op.jti}
    else if op.EnforceLimit? then Surplus(st.index, cfg.maxSessionsPerUser, cfg.maxEvictionsPerCall)
    else if op.CleanupIndex? then Elems(Stale(st.records, op.jtis))
    else {}
  }

  /** The steps that write records leave the index alone. */
  lemma SameIndex(cfg: Config, st: Store, op: Op)
    requires op.Touch? || op.TouchEnc? || op.Update? || op.UpdateEnc? || op.Revoke? || op.RevokeEnc?
    ensures Step(cfg, st, op).0.index == st.index
  {
  }

  lemma ValidateIndex(st: Store, j: Jti)
    ensures var st' := ValidateScript(st, j).0;
      st'.index == if j in st.records && st' != st then st.index - {CleanupMember(st.records[j].env, j)} else st.index
  {
  }

  lemma ShrinkingIndex(cfg: Config, st: Store, op: Op)
    requires !op.Create? && !op.Rotate? && !op.RotateEnc? && !op.DeleteBatch?
    ensures Step(cfg, st, op).0.index == st.index - Dropped(cfg, st, op)
  {
    assert st.index - {} == st.index;
    if op.Validate? {
      ValidateIndex(st, op.jti);
    } else if op.Touch? || op.TouchEnc? || op.Update? || op.UpdateEnc? || op.Revoke? || op.RevokeEnc? {
      SameIndex(cfg, st, op);
    }
  }

  lemma CeilingStep(cfg: Config, st: Store, op: Op)
    requires Agrees(st)
    requires 0 < cfg.maxSessionsPerUser && |st.index| <= cfg.maxSessionsPerUser
    ensures |Step(cfg, st, op).0.index| <= cfg.maxSessionsPerUser
  {
    if op.Create? {
      CreateCeiling(cfg, st, op.encrypted, op.jti, op.appNow, op.profile, op.captured);
    } else if op.Rotate? || op.RotateEnc? {
      RotateKeepsSize(cfg, st, op);
    } else if op.DeleteBatch? {
      DeleteBatchEffect(st, op.jtis);
    } else {
      ShrinkingIndex(cfg, st, op);
      MapSize(st.index, Dropped(cfg, st, op), 0, 0);
    }
  }

  lemma {:induction false} CeilingFrom(cfg: Config, st: Store, ops: seq<Op>)
    requires Agrees(st) && UnracedRun(cfg, st, ops)
    requires 0 < cfg.maxSessionsPerUser && |st.index| <= cfg.maxSessionsPerUser
    ensures |Exec(cfg, st, ops).index| <= cfg.maxSessionsPerUser
    decreases |ops|
  {
    if ops != [] {
      CeilingStep(cfg, st, ops[0]);
      AgreesStep(cfg, st, ops[0]);
      CeilingFrom(cfg, Step(cfg, st, ops[0]).0, ops[1..]);
    }
  }

  /** In every reachable state the index agrees, and it and the active sessions fit the limit. */
  lemma CeilingHolds(cfg: Config, start: int, ops: seq<Op>)
    requires UnracedRun(cfg, EMPTY_STORE.(now := start), ops)
    ensures var st := Exec(cfg, EMPTY_STORE.(now := start), ops);
      && Agrees(st)
      && (cfg.maxSessionsPerUser > 0 ==> |ActiveIds(st)| <= |st.index| <= cfg.maxSessionsPerUser)
  {
    var st := Exec(cfg, EMPTY_STORE.(now := start), ops);
    AgreesAlways(cfg, EMPTY_STORE.(now := start), ops);
    if cfg.maxSessionsPerUser > 0 {
      CeilingFrom(cfg, EMPTY_STORE.(now := start), ops);
      SubsetSize(ActiveIds(st), st.index.Keys);
    }
  }

  /** With room for all but one, the eviction takes the single oldest member. */
  lemma EvictedIsOldest(z: map<Jti, int>, j: Jti)
    requires j in z
    ensures j in OldestSet(z, 1) <==> forall k | k in z && k != j :: Before(z, j, k)
  {
    if forall k | k in z && k != j :: Before(z, j, k) {
      assert Ahead(z, z.Keys, j) == {};
    }
    forall k | j in OldestSet(z, 1) && k in z && k != j ensures Before(z, j, k) {
      assert k !in Ahead(z, z.Keys, j) by {
        assert Ahead(z, z.Keys, j) == {};
      }
    }
  }

  /** The new session is the one evicted exactly when the index is full and it sorts before every member. */
  lemma CreateSurvives(cfg: Config, st: Store, encrypted: bool, j: Jti, appNow: int, profile: Profile,
                       captured: Option<nat>)
    requires 0 < cfg.maxSessionsPerUser && |st.index| <= cfg.maxSessionsPerUser && j !in st.index
    ensures var (st', reply) := CreateStep(cfg, st, encrypted, j, appNow, profile, captured);
      var z := st.index[j := appNow];
      reply.Created? ==>
        (j !in st'.records <==>
           |st.index| == cfg.maxSessionsPerUser && forall k | k in z && k != j :: Before(z, j, k))
  {
    var z := st.index[j := appNow];
    MapSize(st.index, {}, j, appNow);
    EvictedIsOldest(z, j);
    assert |st.index| == cfg.maxSessionsPerUser ==> Min(|z| - cfg.maxSessionsPerUser, cfg.maxEvictionsPerCall) == 1;
  }

  /**
   * A create that runs between the listing and the batch of a delete-by-user is lost to the index exactly
   * if the new session survived its own eviction, that is, for all but the case of CreateSurvives.
   */
  lemma RacedDeleteUnindexes(cfg: Config, st: Store, js: seq<Jti>, encrypted: bool, b: Jti, appNow: int,
                             profile: Profile, captured: Option<nat>)
    requires Agrees(st) && ActiveIds(st) <= Elems(js) && b !in js
    requires CreateStep(cfg, st, encrypted, b, appNow, profile, captured).1.Created?
    ensures var mid := CreateStep(cfg, st, encrypted, b, appNow, profile, captured).0;
      && (Agrees(DeleteBatchScript(mid, js).0) <==> b !in mid.records)
      && (b in mid.records ==> ActiveIds(DeleteBatchScript(mid, js).0) == {b})
      && DeleteBatchScript(mid, js).0.index == map[]
  {
    var mid := CreateStep(cfg, st, encrypted, b, appNow, profile, captured).0;
    CreateAgrees(cfg, st, encrypted, b, appNow, profile, captured);
    CreatedActives(cfg, st, encrypted, b, appNow, profile, captured);
    BatchAgreesExactly(mid, js);
    DeleteBatchEffect(mid, js);
  }

  lemma CreatedActives(cfg: Config, st: Store, encrypted: bool, b: Jti, appNow: int, profile: Profile,
                       captured: Option<nat>)
    requires CreateStep(cfg, st, encrypted, b, appNow, profile, captured).1.Created?
    ensures var mid := CreateStep(cfg, st, encrypted, b, appNow, profile, captured).0;
      ActiveIds(mid) <= ActiveIds(st) + {b} && (b in mid.records <==> b in ActiveIds(mid))
  {
  }
}
