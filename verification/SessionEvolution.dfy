/**
 * What a single step can do to a single record. There are six fates, and the run-level
 * results (lineage, replay, mortality, versions) are inductions over them.
 */
module SessionEvolution {
  import opened Wrappers
  import opened SessionTypes
  import opened SortedSet
  import opened SessionScripts
  import opened SessionSystem

  datatype Fate = Kept | Gone | Born | Refreshed | Spent | Cancelled

  predicate SameMode(a: Envelope, b: Envelope) {
    a.Plain? <==> b.Plain?
  }

  /** The change of record `k` from `st` to `st'` is of the given kind. */
  predicate Fits(fate: Fate, st: Store, st': Store, k: Jti) {
    match fate
    case Kept =>
      (k in st.records <==> k in st'.records) && (k in st.records ==> st'.records[k] == st.records[k])
    case Gone =>
      k in st.records && k !in st'.records
    case Born =>
      && k !in st.records && k in st'.records
      && var h := Mirror(st'.records[k].env); h.st == Active && h.ver == 1 && h.rn.None? && h.rj.None?
    case Refreshed =>
      && k in st.records && k in st'.records && SameMode(st.records[k].env, st'.records[k].env)
      && var h, h' := Mirror(st.records[k].env), Mirror(st'.records[k].env);
         h.st == Active && h' == h.(ver := h'.ver, la := h'.la, idle := h'.idle)
    case Spent =>
      && k in st.records && k in st'.records && SameMode(st.records[k].env, st'.records[k].env)
      && var h, h' := Mirror(st.records[k].env), Mirror(st'.records[k].env);
         h.st == Active && h'.rj.Some? && h' == TombHeader(h, h'.rj.value, h'.rn)
    case Cancelled =>
      && k in st.records && k in st'.records && SameMode(st.records[k].env, st'.records[k].env)
      && var h, h' := Mirror(st.records[k].env), Mirror(st'.records[k].env);
         h.st != Revoked && h' == h.(st := Revoked)
  }

  function FateOf(st: Store, st': Store, k: Jti): Fate {
    if k !in st.records then (if k in st'.records then Born else Kept)
    else if k !in st'.records then Gone
    else if st.records[k] == st'.records[k] then Kept
    else
      match Mirror(st'.records[k].env).st
      case Active => Refreshed
      case Consumed => Spent
      case Revoked => Cancelled
  }

  lemma {:induction false} DeleteBatchEffect(st: Store, js: seq<Jti>)
    ensures DeleteBatchScript(st, js).0 == Del(st, Elems(js)).(index := map[])
    decreases |js|
  {
    if js == [] {
      assert st.records - Elems([]) == st.records;
    } else {
      var mid := Zrem(Del(st, {js[0]}), {js[0]});
      DeleteBatchEffect(mid, js[1..]);
      assert Elems(js) == {js[0]} + Elems(js[1..]);
      assert st.records - {js[0]} - Elems(js[1..]) == st.records - Elems(js);
    }
  }

  lemma CreateFate(cfg: Config, st: Store, encrypted: bool, j: Jti, appNow: int, profile: Profile,
                   captured: Option<nat>, k: Jti)
    ensures var (st', reply) := CreateStep(cfg, st, encrypted, j, appNow, profile, captured);
      && Fits(FateOf(st, st', k), st, st', k)
      && (FateOf(st, st', k) == Born ==> reply.Created? && j == k)
      && (reply.Created? && j == k ==> k !in st.records)
  {
  }

  lemma RotateFate(cfg: Config, st: Store, j: Jti, ns: Record, succ: Jti, expected: Option<nat>,
                   nonce: Option<string>, k: Jti)
    requires ns.status == Active && ns.rotatedTo.None? && ns.rotationNonceHash.None?
    ensures var (st', reply) := RotateScript(cfg, st, j, ns, succ, expected, nonce);
      && Fits(FateOf(st, st', k), st, st', k)
      && (FateOf(st, st', k) == Born ==> reply == Rotated(k))
      && (reply == Rotated(k) ==> k !in st.records)
  {
  }

  lemma RotateEncryptedScriptFate(cfg: Config, st: Store, j: Jti, consumed: Record, ns: Record, succ: Jti,
                                  expected: Option<nat>, nonce: Option<string>, nextTtl: int, tombTtl: int, k: Jti)
    ensures var (st', reply) :=
        RotateEncryptedScript(cfg, st, j, consumed, ns, succ, expected, nonce, nextTtl, tombTtl);
      && Fits(FateOf(st, st', k), st, st', k)
      && (FateOf(st, st', k) == Born ==> reply == Rotated(k))
      && (reply == Rotated(k) ==> k !in st.records)
  {
  }

  lemma RotateEncryptedFate(cfg: Config, st: Store, j: Jti, succ: Jti, expected: Option<nat>,
                            nonce: Option<string>, read: Option<Envelope>, appNow: int, k: Jti)
    ensures var (st', reply) := RotateEncrypted(cfg, st, j, succ, expected, nonce, read, appNow);
      && Fits(FateOf(st, st', k), st, st', k)
      && (FateOf(st, st', k) == Born ==> reply == Rotated(k))
      && (reply == Rotated(k) ==> k !in st.records)
  {
    var plan := RotatePlan(read, appNow, succ, expected, nonce);
    if plan.Submit? {
      var ns := Successor(cfg, succ, j, appNow);
      RotateEncryptedScriptFate(cfg, st, j, plan.payload, ns, succ, expected, nonce,
                                Max(1, ns.absoluteExpiresAt - appNow), plan.ttl, k);
    }
  }

  lemma TouchFate(cfg: Config, st: Store, j: Jti, force: bool, read: Option<Envelope>, appNow: int, k: Jti)
    ensures var st' := TouchScript(cfg, st, j, force).0;
      Fits(FateOf(st, st', k), st, st', k) && FateOf(st, st', k) != Born
    ensures var st' := TouchEncrypted(cfg, st, j, force, read, appNow).0;
      Fits(FateOf(st, st', k), st, st', k) && FateOf(st, st', k) != Born
  {
  }

  lemma UpdateFate(st: Store, j: Jti, expected: Option<nat>, patch: Patch, read: Option<Envelope>, appNow: int, k: Jti)
    ensures var st' := UpdateScript(st, j, expected, patch).0;
      Fits(FateOf(st, st', k), st, st', k) && FateOf(st, st', k) != Born
    ensures var st' := UpdateEncrypted(st, j, expected, patch, read, appNow).0;
      Fits(FateOf(st, st', k), st, st', k) && FateOf(st, st', k) != Born
  {
  }

  lemma RevokeFate(st: Store, j: Jti, payload: Option<Record>, ttl: int, k: Jti)
    ensures var st' := RevokeScript(st, j, payload, ttl).0;
      Fits(FateOf(st, st', k), st, st', k) && FateOf(st, st', k) != Born
  {
  }

  lemma EvictFate(st: Store, gone: set<Jti>, k: Jti)
    ensures FateOf(st, Evict(st, gone), k) in {Kept, Gone}
  {
  }

  /** The steps that rewrite no record. */
  lemma RemovalFate(cfg: Config, st: Store, op: Op, k: Jti)
    requires op.Tick? || op.Reclaim? || op.ReclaimClaim? || op.SetSecurityVersion? || op.Validate? || op.Destroy?
             || op.EnforceLimit? || op.CleanupIndex? || op.DeleteBatch?
    ensures FateOf(st, Step(cfg, st, op).0, k) in {Kept, Gone}
    ensures !Births(cfg, st, op, k)
  {
    if op.DeleteBatch? {
      DeleteBatchEffect(st, op.jtis);
    } else if op.EnforceLimit? {
      EvictFate(st, EnforceLimitScript(cfg, st).1, k);
    }
  }

  /** Every step, with any arguments, treats every record in one of the six ways. */
  lemma StepFate(cfg: Config, st: Store, op: Op, k: Jti)
    ensures var st' := Step(cfg, st, op).0; Fits(FateOf(st, st', k), st, st', k)
    ensures FateOf(st, Step(cfg, st, op).0, k) == Born ==> Births(cfg, st, op, k)
    ensures Births(cfg, st, op, k) ==> k !in st.records
  {
    if op.Create? {
      CreateFate(cfg, st, op.encrypted, op.jti, op.appNow, op.profile, op.captured, k);
    } else if op.Touch? {
      TouchFate(cfg, st, op.jti, op.force, None, 0, k);
    } else if op.TouchEnc? {
      TouchFate(cfg, st, op.jti, op.force, op.read, op.appNow, k);
    } else if op.Rotate? {
      RotateFate(cfg, st, op.jti, Successor(cfg, op.succ, op.jti, op.appNow), op.succ, op.expected, op.nonce, k);
    } else if op.RotateEnc? {
      RotateEncryptedFate(cfg, st, op.jti, op.succ, op.expected, op.nonce, op.read, op.appNow, k);
    } else if op.Update? {
      UpdateFate(st, op.jti, op.expected, op.patch, None, 0, k);
    } else if op.UpdateEnc? {
      UpdateFate(st, op.jti, op.expected, op.patch, op.read, op.appNow, k);
    } else if op.Revoke? {
      RevokeFate(st, op.jti, None, Max(1, op.ttl), k);
    } else if op.RevokeEnc? {
      if op.read.Some? {
        RevokeFate(st, op.jti, Some(Content(op.read.value).(status := Revoked)), Max(1, op.ttl), k);
      }
    } else {
      RemovalFate(cfg, st, op, k);
    }
  }
}
