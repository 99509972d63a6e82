/**
 * The repository over one user's store: the two-phase encrypted calls run without interruption,
 * and the bulk loops.
 */
module SessionRepositories {
  import opened Wrappers
  import opened SessionTypes
  import opened SortedSet
  import opened SessionScripts
  import opened SessionSystem
  import opened SessionRefinement
  import opened SessionIndex
  import opened SessionEvolution
  import opened UserStores
  import opened Chunks

  // ---------------------------------------------------------------- deletion by user

  function Present(records: map<Jti, Entry>, js: seq<Jti>): seq<Jti> {
    if js == [] then [] else (if js[0] in records then [js[0]] else []) + Present(records, js[1..])
  }

  lemma {:induction false} PresentAppend(records: map<Jti, Entry>, a: seq<Jti>, b: seq<Jti>)
    ensures Present(records, a + b) == Present(records, a) + Present(records, b)
    decreases |a|
  {
    if a == [] {
      assert a + b == b;
    } else {
      PresentAppend(records, a[1..], b);
      assert (a + b)[1..] == a[1..] + b;
    }
  }

  lemma {:induction false} PresentWithout(records: map<Jti, Entry>, gone: set<Jti>, js: seq<Jti>)
    requires forall k | k in js :: k !in gone
    ensures Present(records - gone, js) == Present(records, js)
  {
    if js != [] {
      PresentWithout(records, gone, js[1..]);
    }
  }

  lemma {:induction false} BatchReturns(st: Store, js: seq<Jti>)
    requires Distinct(js)
    ensures DeleteBatchScript(st, js).1 == Present(st.records, js)
    decreases |js|
  {
    if js != [] {
      BatchReturns(Zrem(Del(st, {js[0]}), {js[0]}), js[1..]);
      PresentWithout(st.records, {js[0]}, js[1..]);
    }
  }

  lemma ElemsAppend(a: seq<Jti>, b: seq<Jti>)
    ensures Elems(a + b) == Elems(a) + Elems(b)
  {
  }

  /** What one batch of the deletion does to the state that the earlier batches left. */
  lemma BatchDeletes(st: Store, records: map<Jti, Entry>, batches: seq<seq<Jti>>, b: nat)
    requires b < |batches| && Distinct(batches[b])
    requires forall k | k in batches[b] :: k !in Flatten(batches[..b])
    requires st.records == records - Elems(Flatten(batches[..b]))
    ensures var (st', deleted) := DeleteBatchScript(st, batches[b]);
      && st' == st.(records := records - Elems(Flatten(batches[..b + 1])), index := map[])
      && Present(records, Flatten(batches[..b])) + deleted == Present(records, Flatten(batches[..b + 1]))
  {
    var done := Flatten(batches[..b]);
    FlattenNext(batches, b);
    DeleteBatchEffect(st, batches[b]);
    BatchReturns(st, batches[b]);
    PresentWithout(records, Elems(done), batches[b]);
    PresentAppend(records, done, batches[b]);
    ElemsAppend(done, batches[b]);
    RemoveTwice(records, Elems(done), Elems(batches[b]));
  }

  /** What deleteByUser leaves: every indexed record gone, and the index empty. */
  function WithoutIndexed(st: Store): Store {
    Del(st, st.index.Keys).(index := map[])
  }

  /** Run without interruption, it keeps the agreement, and no active record survives it. */
  lemma DeleteByUserAgrees(st: Store)
    requires Agrees(st)
    ensures Agrees(WithoutIndexed(st)) && ActiveIds(WithoutIndexed(st)) == {}
  {
  }

  lemma {:induction false} PresentElems(records: map<Jti, Entry>, js: seq<Jti>)
    ensures Elems(Present(records, js)) == Elems(js) * records.Keys
  {
    if js != [] {
      PresentElems(records, js[1..]);
      ElemsAppend([js[0]], js[1..]);
      assert js == [js[0]] + js[1..];
      ElemsAppend(if js[0] in records then [js[0]] else [], Present(records, js[1..]));
    }
  }

  lemma {:induction false} FlattenPrefix(batches: seq<seq<Jti>>, b: nat)
    requires b <= |batches|
    ensures Flatten(batches[..b]) <= Flatten(batches)
    decreases |batches|
  {
    if b == |batches| {
      assert batches[..b] == batches;
    } else {
      FlattenPrefix(batches[..|batches| - 1], b);
      assert batches[..|batches| - 1][..b] == batches[..b];
    }
  }

  lemma DistinctParts(all: seq<Jti>, a: seq<Jti>, b: seq<Jti>)
    requires Distinct(all) && a + b <= all
    ensures Distinct(b) && forall k | k in b :: k !in a
  {
    forall i | 0 <= i < |b| ensures all[|a| + i] == b[i] {
      assert (a + b)[|a| + i] == b[i];
    }
    forall i | 0 <= i < |a| ensures all[i] == a[i] {
      assert (a + b)[i] == a[i];
    }
  }

  lemma FlattenNext(batches: seq<seq<Jti>>, b: nat)
    requires b < |batches|
    ensures Flatten(batches[..b + 1]) == Flatten(batches[..b]) + batches[b]
  {
    assert batches[..b + 1][..b] == batches[..b];
  }

  /** A batch of a repetition-free list repeats nothing of the batches before it. */
  lemma BatchIsNew(batches: seq<seq<Jti>>, b: nat)
    requires b < |batches| && Distinct(Flatten(batches))
    ensures Distinct(batches[b]) && forall k | k in batches[b] :: k !in Flatten(batches[..b])
  {
    FlattenNext(batches, b);
    FlattenPrefix(batches, b + 1);
    DistinctParts(Flatten(batches), Flatten(batches[..b]), batches[b]);
  }

  // ---------------------------------------------------------------- limit enforcement

  /** By how much an index of this size is over the limit. */
  function Excess(cfg: Config, size: nat): nat {
    if 0 < cfg.maxSessionsPerUser < size then size - cfg.maxSessionsPerUser else 0
  }

  /** How many calls of size m it takes to cover h. */
  function CallsToCover(h: nat, m: nat): nat
    requires m >= 1
  {
    if h == 0 then 0 else 1 + CallsToCover(Max(0, h - m), m)
  }

  /** What `i` calls can evict; a product, summed as the loop sums it. */
  function Calls(i: nat, m: nat): nat {
    if i == 0 then 0 else Calls(i - 1, m) + m
  }

  /** The most that one enforcement can evict: a hundred calls, fewer when the hard cap stops it. */
  function Reach(cfg: Config): nat {
    Calls(Min(100, CallsToCover(cfg.maxSessionsPerUserHardCap, cfg.maxEvictionsPerCall)), cfg.maxEvictionsPerCall)
  }

  lemma {:induction false} CallsAdd(i: nat, m: nat, h: nat)
    requires m >= 1 && i == CallsToCover(h, m)
    ensures Calls(i, m) >= h && (i > 0 ==> Calls(i - 1, m) < h)
    decreases h
  {
    if h > 0 {
      CallsAdd(i - 1, m, Max(0, h - m));
    }
  }

  lemma {:induction false} CallsGrow(i: nat, j: nat, m: nat)
    requires i <= j
    ensures Calls(i, m) <= Calls(j, m)
    decreases j
  {
    if i < j {
      CallsGrow(i, j - 1, m);
    }
  }

  lemma {:induction false} CallsProduct(i: nat, m: nat)
    ensures Calls(i, m) == i * m
  {
    if i > 0 {
      CallsProduct(i - 1, m);
      assert i * m == (i - 1) * m + m;
    }
  }

  /** Where the loop stops: `i` calls were made, and the one before the last still had work allowed. */
  lemma LoopStops(e: nat, m: nat, h: nat, i: nat, done: bool)
    requires m >= 1 && i <= 100
    requires i > 0 ==> Min(e, Calls(i - 1, m)) < h
    requires done ==> i > 0 && Min(e, Calls(i - 1, m)) == e
    requires i == 100 || Min(e, Calls(i, m)) >= h || done
    ensures Min(e, Calls(i, m)) == Min(e, Calls(Min(100, CallsToCover(h, m)), m))
  {
    var c := CallsToCover(h, m);
    CallsAdd(c, m, h);
    if c < i {
      CallsGrow(c, i - 1, m);
      CallsGrow(c, i, m);
    } else if i < c {
      CallsGrow(i, c - 1, m);
      CallsGrow(i, Min(100, c), m);
      if done {
        CallsGrow(i - 1, i, m);
      }
    }
  }

  lemma SizeWithout(z: map<Jti, int>, gone: set<Jti>)
    requires gone <= z.Keys
    ensures |z - gone| == |z| - |gone|
  {
    assert (z - gone).Keys == z.Keys - gone;
  }

  lemma RemoveTwice<V>(z: map<Jti, V>, a: set<Jti>, b: set<Jti>)
    ensures z - a - b == z - (a + b)
  {
  }

  lemma EvictTwice(st: Store, a: set<Jti>, b: set<Jti>)
    ensures Evict(Evict(st, a), b) == Evict(st, a + b)
  {
    RemoveTwice(st.records, a, b);
    RemoveTwice(st.index, a, b);
  }

  /**
   * What enforcement leaves, `gone` being what it evicted: within reach, exactly the newest `limit`
   * members by (score, jti); never fewer; and its reach covers min(100 calls, hard cap).
   */
  lemma EnforcementConverges(cfg: Config, z: map<Jti, int>, gone: set<Jti>)
    requires cfg.maxSessionsPerUser > 0
    requires IsFront(z, gone) && |gone| == Min(Excess(cfg, |z|), Reach(cfg))
    ensures |z - gone| <= cfg.maxSessionsPerUser <==> Excess(cfg, |z|) <= Reach(cfg)
    ensures |z| >= cfg.maxSessionsPerUser ==> |z - gone| >= cfg.maxSessionsPerUser
    ensures gone == OldestSet(z, |gone|)
    ensures Min(100 * cfg.maxEvictionsPerCall, cfg.maxSessionsPerUserHardCap) <= Reach(cfg)
  {
    assert (z - gone).Keys == z.Keys - gone;
    OldestIsFront(z, |gone|);
    FrontsEqual(z, gone, OldestSet(z, |gone|));
    var c := CallsToCover(cfg.maxSessionsPerUserHardCap, cfg.maxEvictionsPerCall);
    CallsAdd(c, cfg.maxEvictionsPerCall, cfg.maxSessionsPerUserHardCap);
    CallsProduct(100, cfg.maxEvictionsPerCall);
  }

  class Repository {
    const store: UserStore
    const cfg: Config

    constructor (store: UserStore, cfg: Config)
      ensures this.store == store && this.cfg == cfg
    {
      this.store, this.cfg := store, cfg;
    }

    method Get(j: Jti) returns (raw: Option<Envelope>)
      ensures raw == ReadOf(store.State(), j)
    {
      raw := if j in store.records then Some(store.records[j].env) else None;
    }

    method TouchSession(j: Jti, force: bool, appNow: int) returns (reply: TouchReply)
      modifies store
      ensures (store.State(), reply) ==
              TouchEncrypted(cfg, old(store.State()), j, force, ReadOf(old(store.State()), j), appNow)
    {
      var raw := Get(j);
      if raw.None? {
        return TouchMissing;
      }
      var record := Content(raw.value);
      if record.status != Active {
        return TouchInactive;
      }
      if record.absoluteExpiresAt <= appNow {
        var _ := store.Delete(j);
        return TouchExpired;
      }
      if record.idleExpiresAt.Some? && record.idleExpiresAt.value <= appNow {
        return TouchIdle;
      }
      if !force && appNow - record.lastAccessedAt < cfg.touchInterval {
        return TouchThrottled;
      }
      var updated := record.(
        lastAccessedAt := appNow,
        idleExpiresAt := if cfg.idleTimeout.Some?
                         then Some(Min(appNow + cfg.idleTimeout.value, record.absoluteExpiresAt))
                         else record.idleExpiresAt);
      reply := store.TouchEncrypted(cfg, j, force, updated, Max(1, updated.absoluteExpiresAt - appNow));
    }

    method RotateSession(j: Jti, succ: Jti, expected: Option<nat>, nonce: Option<string>, appNow: int)
      returns (reply: RotateReply)
      modifies store
      ensures (store.State(), reply) ==
              RotateEncrypted(cfg, old(store.State()), j, succ, expected, nonce,
                              ReadOf(old(store.State()), j), appNow)
    {
      var successor := Successor(cfg, succ, j, appNow);
      var raw := Get(j);
      if raw.None? {
        return RotateMissing;
      }
      var current := Content(raw.value);
      if current.status != Active {
        if nonce.Some? && current.rotationNonceHash == nonce && current.rotatedTo.Some? {
          return RotateReplay(current.rotatedTo);
        }
        return RotateInactive;
      }
      if current.absoluteExpiresAt <= appNow {
        var _ := store.Delete(j);
        return RotateExpired;
      }
      if expected.Some? && current.version != expected.value {
        return RotateConflict;
      }
      var consumed := current.(status := Consumed, consumedAt := Some(appNow),
                               rotatedTo := Some(succ), rotationNonceHash := nonce);
      var successorTtl := Max(1, successor.absoluteExpiresAt - appNow);
      var consumedTtl := Max(1, consumed.absoluteExpiresAt - appNow);
      reply := store.RotateEncrypted(cfg, j, consumed, successor, succ, expected, nonce, successorTtl, consumedTtl);
    }

    method UpdateSession(j: Jti, expected: Option<nat>, patch: Patch, appNow: int) returns (reply: UpdateReply)
      modifies store
      ensures (store.State(), reply) ==
              UpdateEncrypted(old(store.State()), j, expected, patch, ReadOf(old(store.State()), j), appNow)
    {
      var raw := Get(j);
      if raw.None? {
        return UpdateMissing;
      }
      var current := Content(raw.value);
      if current.status != Active {
        return UpdateInactive;
      }
      if current.absoluteExpiresAt <= appNow {
        var _ := store.Delete(j);
        return UpdateExpired;
      }
      if expected.Some? && current.version != expected.value {
        return UpdateConflict;
      }
      var updated := current.(profile := Patched(current.profile, patch), version := current.version + 1);
      reply := store.UpdateEncrypted(j, expected, updated, Max(1, updated.absoluteExpiresAt - appNow));
    }

    method RevokeSession(j: Jti, tombstoneTtl: int) returns (reply: RevokeReply)
      modifies store
      ensures (store.State(), reply) ==
              RevokeEncrypted(old(store.State()), j, tombstoneTtl, ReadOf(old(store.State()), j))
    {
      var raw := Get(j);
      if raw.None? {
        return RevokeMissing;
      }
      var revoked := Content(raw.value).(status := Revoked);
      reply := store.Revoke(j, Some(revoked), Max(1, tombstoneTtl));
    }

    /** ZRANGE 0 -1 */
    method ListAll() returns (jtis: seq<Jti>)
      ensures Distinct(jtis) && Elems(jtis) == store.index.Keys
    {
      jtis := Oldest(store.index, |store.index|);
      OldestElems(store.index, |store.index|);
      OldestCount(store.index, |store.index|);
      SubsetSize(OldestSet(store.index, |store.index|), store.index.Keys);
    }

    /** For any batch size, the whole index and every indexed record go, and exactly those are returned. */
    method DeleteByUser() returns (deleted: seq<Jti>)
      modifies store
      ensures store.State() == WithoutIndexed(old(store.State()))
      ensures Elems(deleted) == old(store.index).Keys * old(store.records).Keys
    {
      var jtis := ListAll();
      ghost var before := store.State();
      RemoveOneMore(before.records, [], 0);
      if |jtis| == 0 {
        store.index := map[];
        return [];
      }
      deleted := [];
      var hardCap := cfg.maxSessionsPerUserHardCap;
      var batchSize := Min(cfg.maxBatchSize, if hardCap != 0 then hardCap else cfg.maxBatchSize);
      var batches := Chunk(jtis, batchSize);
      assert batches[..|batches|] == batches;
      for b := 0 to |batches|
        invariant store.records == before.records - Elems(Flatten(batches[..b]))
        invariant b > 0 ==> store.index == map[]
        invariant store.now == before.now && store.claims == before.claims
        invariant store.securityVersion == before.securityVersion
        invariant deleted == Present(before.records, Flatten(batches[..b]))
      {
        BatchIsNew(batches, b);
        BatchDeletes(store.State(), before.records, batches, b);
        var result := store.DeleteBatch(batches[b]);
        deleted := deleted + result;
      }
      PresentElems(before.records, jtis);
    }

    /** One call of enforce-limit.lua evicts the oldest members, as many as the excess and the bound allow. */
    method EnforceOnce() returns (evicted: set<Jti>)
      modifies store
      ensures store.State() == Evict(old(store.State()), evicted)
      ensures IsFront(old(store.index), evicted)
      ensures |evicted| == Min(Excess(cfg, |old(store.index)|), cfg.maxEvictionsPerCall)
    {
      if |store.index| > cfg.maxSessionsPerUser {
        OldestIsFront(store.index, Min(|store.index| - cfg.maxSessionsPerUser, cfg.maxEvictionsPerCall));
      }
      evicted := store.EnforceLimit(cfg);
    }

    /** One turn of the loop: `gone` is what the turns before it evicted from the state `before`. */
    method EnforceMore(ghost before: Store, ghost gone: set<Jti>) returns (evicted: set<Jti>)
      requires IsFront(before.index, gone) && store.State() == Evict(before, gone)
      modifies store
      ensures IsFront(before.index, gone + evicted) && store.State() == Evict(before, gone + evicted)
      ensures |gone + evicted| == |gone| + |evicted|
      ensures |gone| <= |before.index|
      ensures |evicted| == Min(Excess(cfg, |before.index| - |gone|), cfg.maxEvictionsPerCall)
    {
      SizeWithout(before.index, gone);
      evicted := EnforceOnce();
      FrontTwice(before.index, gone, evicted);
      EvictTwice(before, gone, evicted);
    }

    /** The loop stops when nothing is evicted, at the hard cap, or after a hundred calls. */
    method EnforceLimit() returns (total: nat, ghost gone: set<Jti>)
      modifies store
      ensures store.State() == Evict(old(store.State()), gone)
      ensures IsFront(old(store.index), gone)
      ensures |gone| == total == Min(Excess(cfg, |old(store.index)|), Reach(cfg))
    {
      ghost var before := store.State();
      ghost var excess := Excess(cfg, |before.index|);
      total, gone := 0, {};
      NothingEvicted(before);
      if cfg.maxSessionsPerUser <= 0 {
        return;
      }
      var hardCap := cfg.maxSessionsPerUserHardCap;
      var i, done := 0, false;
      while i < 100 && total < hardCap && !done
        invariant i <= 100
        invariant |gone| == total == Min(excess, Calls(i, cfg.maxEvictionsPerCall))
        invariant i > 0 ==> Min(excess, Calls(i - 1, cfg.maxEvictionsPerCall)) < hardCap
        invariant done ==> i > 0 && Min(excess, Calls(i - 1, cfg.maxEvictionsPerCall)) == excess
        invariant IsFront(before.index, gone) && store.State() == Evict(before, gone)
        decreases 100 - i
      {
        var evicted := EnforceMore(before, gone);
        gone := gone + evicted;
        total := total + |evicted|;
        if |evicted| == 0 {
          done := true;
        }
        i := i + 1;
      }
      LoopStops(excess, cfg.maxEvictionsPerCall, hardCap, i, done);
    }
  }
}
