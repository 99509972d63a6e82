/** Each create starts a lineage that rotation inherits; a lineage never has two active records. */
module SessionLineage {
  import opened Wrappers
  import opened SessionTypes
  import opened SessionScripts
  import opened SessionSystem
  import opened SessionEvolution

  /** The state, with the lineage of every session id seen so far and the next unused lineage. */
  datatype Tracked = Tracked(store: Store, line: map<Jti, nat>, unused: nat)

  function Follow(cfg: Config, t: Tracked, op: Op): Tracked {
    var (st', reply) := Step(cfg, t.store, op);
    if op.Create? && reply.CreateOut? && reply.create.Created? then
      Tracked(st', t.line[op.jti := t.unused], t.unused + 1)
    else if (op.Rotate? || op.RotateEnc?) && reply.RotateOut? && reply.rotate.Rotated? && op.jti in t.line then
      Tracked(st', t.line[op.succ := t.line[op.jti]], t.unused)
    else
      t.(store := st')
  }

  function FollowAll(cfg: Config, t: Tracked, ops: seq<Op>): Tracked
    decreases |ops|
  {
    if ops == [] then t else FollowAll(cfg, Follow(cfg, t, ops[0]), ops[1..])
  }

  predicate IsActive(st: Store, k: Jti) {
    k in st.records && Mirror(st.records[k].env).st == Active
  }

  ghost predicate SingleFile(t: Tracked) {
    && t.store.records.Keys <= t.line.Keys
    && (forall k | k in t.line :: t.line[k] < t.unused)
    && (forall a, b | IsActive(t.store, a) && IsActive(t.store, b) && t.line[a] == t.line[b] :: a == b)
  }

  lemma ActiveBefore(cfg: Config, st: Store, op: Op, k: Jti)
    requires IsActive(Step(cfg, st, op).0, k) && !Births(cfg, st, op, k)
    ensures IsActive(st, k)
  {
    StepFate(cfg, st, op, k);
  }

  /** A successful rotation leaves its source inactive and names a session that did not exist. */
  lemma RotationSpends(cfg: Config, st: Store, op: Op)
    requires op.Rotate? || op.RotateEnc?
    requires Step(cfg, st, op).1.rotate.Rotated?
    ensures Step(cfg, st, op).1.rotate.successor == op.succ && op.succ !in st.records
    ensures IsActive(st, op.jti) && !IsActive(Step(cfg, st, op).0, op.jti)
  {
  }

  lemma LinesKnown(cfg: Config, t: Tracked, op: Op)
    requires SingleFile(t)
    ensures var t' := Follow(cfg, t, op);
      t'.store.records.Keys <= t'.line.Keys && forall k | k in t'.line :: t'.line[k] < t'.unused
  {
    var st' := Step(cfg, t.store, op).0;
    if (op.Rotate? || op.RotateEnc?) && Step(cfg, t.store, op).1.rotate.Rotated? {
      RotationSpends(cfg, t.store, op);
    }
    forall k | k in st'.records ensures k in Follow(cfg, t, op).line {
      StepFate(cfg, t.store, op, k);
    }
  }

  lemma PairStaysApart(cfg: Config, t: Tracked, op: Op, a: Jti, b: Jti)
    requires SingleFile(t)
    requires var t' := Follow(cfg, t, op);
      IsActive(t'.store, a) && IsActive(t'.store, b) && a in t'.line && b in t'.line && t'.line[a] == t'.line[b]
    ensures a == b
  {
    if (op.Rotate? || op.RotateEnc?) && Step(cfg, t.store, op).1.rotate.Rotated? {
      RotationSpends(cfg, t.store, op);
    }
    if !Births(cfg, t.store, op, a) { ActiveBefore(cfg, t.store, op, a); }
    if !Births(cfg, t.store, op, b) { ActiveBefore(cfg, t.store, op, b); }
  }

  lemma FollowStep(cfg: Config, t: Tracked, op: Op)
    requires SingleFile(t)
    ensures SingleFile(Follow(cfg, t, op))
  {
    var t' := Follow(cfg, t, op);
    LinesKnown(cfg, t, op);
    forall a, b | IsActive(t'.store, a) && IsActive(t'.store, b) && t'.line[a] == t'.line[b] ensures a == b {
      PairStaysApart(cfg, t, op, a, b);
    }
  }

  lemma {:induction false} FollowAllKeeps(cfg: Config, t: Tracked, ops: seq<Op>)
    requires SingleFile(t)
    ensures SingleFile(FollowAll(cfg, t, ops))
    decreases |ops|
  {
    if ops != [] {
      FollowStep(cfg, t, ops[0]);
      FollowAllKeeps(cfg, Follow(cfg, t, ops[0]), ops[1..]);
    }
  }

  lemma {:induction false} FollowsExec(cfg: Config, t: Tracked, ops: seq<Op>)
    ensures FollowAll(cfg, t, ops).store == Exec(cfg, t.store, ops)
    decreases |ops|
  {
    if ops != [] {
      FollowsExec(cfg, Follow(cfg, t, ops[0]), ops[1..]);
    }
  }

  /**
   * In every reachable state, two active records of the same lineage are the same record:
   * any interleaving, plain and encrypted sessions mixed, any stale read, any application clock.
   */
  lemma OneActivePerLineage(cfg: Config, start: int, ops: seq<Op>, a: Jti, b: Jti)
    ensures var t := FollowAll(cfg, Tracked(EMPTY_STORE.(now := start), map[], 0), ops);
      && t.store == Exec(cfg, EMPTY_STORE.(now := start), ops)
      && t.store.records.Keys <= t.line.Keys
      && (IsActive(t.store, a) && IsActive(t.store, b) && t.line[a] == t.line[b] ==> a == b)
  {
    var t := Tracked(EMPTY_STORE.(now := start), map[], 0);
    FollowAllKeeps(cfg, t, ops);
    FollowsExec(cfg, t, ops);
  }
}
