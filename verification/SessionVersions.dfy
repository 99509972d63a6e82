/** Optimistic concurrency: the version counts the guarded updates, and each version is spent once. */
module SessionVersions {
  import opened Wrappers
  import opened SessionTypes
  import opened SessionScripts
  import opened SessionSystem
  import opened SessionEvolution

  predicate Updates(op: Op, k: Jti) {
    (op.Update? || op.UpdateEnc?) && op.jti == k
  }

  /** Every encrypted update of `k` in the run says which version it expects; plain ones need not. */
  predicate Guarded(ops: seq<Op>, k: Jti) {
    forall i | 0 <= i < |ops| :: IsGuarded(ops[i], k)
  }

  predicate IsGuarded(op: Op, k: Jti) {
    op.UpdateEnc? && op.jti == k ==> op.expected.Some?
  }

  predicate Succeeds(cfg: Config, st: Store, op: Op, k: Jti) {
    Updates(op, k) && Step(cfg, st, op).1.update.Updated?
  }

  function Successes(cfg: Config, st: Store, ops: seq<Op>, k: Jti): nat
    decreases |ops|
  {
    if ops == [] then 0
    else (if Succeeds(cfg, st, ops[0], k) then 1 else 0) + Successes(cfg, Step(cfg, st, ops[0]).0, ops[1..], k)
  }

  function Version(st: Store, k: Jti): nat
    requires k in st.records
  {
    Mirror(st.records[k].env).ver
  }

  /** A plain update counts whether or not it names a version. */
  lemma PlainUpdateCounts(cfg: Config, st: Store, op: Op, k: Jti)
    requires op.Update? && op.jti == k && k in st.records && k in Step(cfg, st, op).0.records
    ensures Version(Step(cfg, st, op).0, k) == Version(st, k) + (if Succeeds(cfg, st, op, k) then 1 else 0)
    ensures Succeeds(cfg, st, op, k) && op.expected.Some? ==> op.expected == Some(Version(st, k))
  {
  }

  /** An encrypted update that succeeds counts exactly if its read had the stored version. */
  lemma EncryptedUpdateCounts(cfg: Config, st: Store, op: Op, k: Jti)
    requires op.UpdateEnc? && op.jti == k && Succeeds(cfg, st, op, k)
    ensures op.read.Some? && k in st.records && k in Step(cfg, st, op).0.records
    ensures Version(Step(cfg, st, op).0, k) == Content(op.read.value).version + 1
    ensures Version(Step(cfg, st, op).0, k) == Version(st, k) + 1 <==> Content(op.read.value).version == Version(st, k)
    ensures op.expected.Some? ==> Content(op.read.value).version == Version(st, k) == op.expected.value
  {
  }

  lemma FailedUpdateKeepsVersion(cfg: Config, st: Store, op: Op, k: Jti)
    requires op.UpdateEnc? && op.jti == k && !Succeeds(cfg, st, op, k)
    requires k in st.records && k in Step(cfg, st, op).0.records
    ensures Version(Step(cfg, st, op).0, k) == Version(st, k)
  {
  }

  lemma OtherVersion(cfg: Config, st: Store, op: Op, k: Jti)
    requires !Updates(op, k) && !op.DeleteBatch?
    requires k in st.records && k in Step(cfg, st, op).0.records
    ensures Version(Step(cfg, st, op).0, k) == Version(st, k)
  {
  }

  /** A guarded success finds the version it expects and leaves the next one. */
  lemma VersionStep(cfg: Config, st: Store, op: Op, k: Jti)
    requires k in st.records && k in Step(cfg, st, op).0.records && IsGuarded(op, k)
    ensures Version(Step(cfg, st, op).0, k) == Version(st, k) + (if Succeeds(cfg, st, op, k) then 1 else 0)
    ensures Succeeds(cfg, st, op, k) && op.expected.Some? ==> op.expected == Some(Version(st, k))
  {
    if op.DeleteBatch? {
      DeleteBatchEffect(st, op.jtis);
    } else if !Updates(op, k) {
      OtherVersion(cfg, st, op, k);
    } else if op.Update? {
      PlainUpdateCounts(cfg, st, op, k);
    } else if Succeeds(cfg, st, op, k) {
      EncryptedUpdateCounts(cfg, st, op, k);
    } else {
      FailedUpdateKeepsVersion(cfg, st, op, k);
    }
  }

  /** Without a birth, a record that exists later existed all along. */
  lemma {:induction false} NoBirthKeepsAbsent(cfg: Config, st: Store, ops: seq<Op>, k: Jti)
    requires NoBirth(cfg, st, ops, k) && k !in st.records
    ensures k !in Exec(cfg, st, ops).records
    decreases |ops|
  {
    if ops != [] {
      StepFate(cfg, st, ops[0], k);
      NoBirthKeepsAbsent(cfg, Step(cfg, st, ops[0]).0, ops[1..], k);
    }
  }

  /** The stored version (the header's, for an encrypted record) has moved by the number of successes. */
  lemma {:induction false} VersionCountsSuccesses(cfg: Config, st: Store, ops: seq<Op>, k: Jti)
    requires NoBirth(cfg, st, ops, k) && Guarded(ops, k)
    requires k in st.records && k in Exec(cfg, st, ops).records
    ensures Version(Exec(cfg, st, ops), k) == Version(st, k) + Successes(cfg, st, ops, k)
    decreases |ops|
  {
    if ops != [] {
      var st' := Step(cfg, st, ops[0]).0;
      if k !in st'.records {
        NoBirthKeepsAbsent(cfg, st', ops[1..], k);
      }
      VersionStep(cfg, st, ops[0], k);
      assert Guarded(ops[1..], k);
      VersionCountsSuccesses(cfg, st', ops[1..], k);
    }
  }

  /** From its birth on, a record's version is one plus the number of updates that succeeded. */
  lemma VersionFromBirth(cfg: Config, st: Store, birth: Op, ops: seq<Op>, k: Jti)
    requires Births(cfg, st, birth, k)
    requires NoBirth(cfg, Step(cfg, st, birth).0, ops, k) && Guarded(ops, k)
    requires k in Exec(cfg, Step(cfg, st, birth).0, ops).records
    ensures Version(Exec(cfg, Step(cfg, st, birth).0, ops), k) ==
            1 + Successes(cfg, Step(cfg, st, birth).0, ops, k)
  {
    var st' := Step(cfg, st, birth).0;
    StepFate(cfg, st, birth, k);
    if k !in st'.records {
      NoBirthKeepsAbsent(cfg, st', ops, k);
    }
    VersionCountsSuccesses(cfg, st', ops, k);
  }

  /**
   * Two guarded updates of one incarnation never both succeed against the same version, whatever
   * touches, stale encrypted reads and other updates run between them.
   */
  lemma OneUpdatePerVersion(cfg: Config, st: Store, first: Op, mid: seq<Op>, second: Op, k: Jti)
    requires Updates(first, k) && Updates(second, k) && first.expected.Some? && first.expected == second.expected
    requires Succeeds(cfg, st, first, k)
    requires NoBirth(cfg, Step(cfg, st, first).0, mid, k) && Guarded(mid, k)
    ensures !Succeeds(cfg, Exec(cfg, Step(cfg, st, first).0, mid), second, k)
  {
    var st' := Step(cfg, st, first).0;
    var late := Exec(cfg, st', mid);
    VersionStep(cfg, st, first, k);
    if k in late.records {
      VersionCountsSuccesses(cfg, st', mid, k);
      if k in Step(cfg, late, second).0.records {
        VersionStep(cfg, late, second, k);
      }
    }
  }

  /**
   * Without an expected version, two encrypted updates both succeed and the second counts exactly if it
   * read what the first had written; otherwise the first one's patch is lost.
   */
  lemma UnguardedUpdatesCollapse(cfg: Config, st: Store, k: Jti, one: Op, two: Op)
    requires one.UpdateEnc? && two.UpdateEnc? && one.jti == two.jti == k
    requires Succeeds(cfg, st, one, k) && Succeeds(cfg, Step(cfg, st, one).0, two, k)
    ensures var mid := Step(cfg, st, one).0; var end := Step(cfg, mid, two).0;
      && k in mid.records && k in end.records && one.read.Some? && two.read.Some?
      && (Version(end, k) == Version(mid, k) + 1 <==>
            Content(two.read.value).version == Content(one.read.value).version + 1)
      && (two.read == one.read ==> Version(end, k) == Version(mid, k))
      && Content(end.records[k].env).profile == Patched(Content(two.read.value).profile, two.patch)
  {
    EncryptedUpdateCounts(cfg, st, one, k);
    EncryptedUpdateCounts(cfg, Step(cfg, st, one).0, two, k);
  }
}
