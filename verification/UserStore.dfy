/**
 * The thirteen Lua scripts, run statement by statement against one user's Redis state.
 * Every method is proved to compute the function of SessionScripts with the same name.
 */
module UserStores {
  import opened Wrappers
  import opened SessionTypes
  import opened SortedSet
  import opened SessionScripts

  lemma NothingEvicted(st: Store)
    ensures Evict(st, {}) == st
  {
    assert st.records - {} == st.records && st.index - {} == st.index;
  }

  lemma EvictOneMore(st: Store, gone: set<Jti>, k: Jti)
    ensures Zrem(Del(Evict(st, gone), {k}), {k}) == Evict(st, gone + {k})
  {
    assert st.records - gone - {k} == st.records - (gone + {k});
    assert st.index - gone - {k} == st.index - (gone + {k});
  }

  class UserStore {
    var now: int
    var records: map<Jti, Entry>
    var index: map<Jti, int>
    var claims: map<Jti, Claim>
    var securityVersion: Option<nat>

    /** The state as a value. */
    function State(): Store
      reads this
    {
      Store(now, records, index, claims, securityVersion)
    }

    constructor (now: int)
      ensures State() == EMPTY_STORE.(now := now)
    {
      this.now := now;
      records, index, claims, securityVersion := map[], map[], map[], None;
    }

    method Set(j: Jti, env: Envelope, ttl: int)
      modifies this`records
      ensures State() == Put(old(State()), j, env, ttl)
    {
      records := records[j := Entry(env, now + ttl)];
    }

    method Delete(j: Jti) returns (existed: bool)
      modifies this`records
      ensures State() == Del(old(State()), {j}) && existed == (j in old(records))
    {
      existed := j in records;
      records := records - {j};
    }

    method Unlink(j: Jti)
      modifies this`index
      ensures State() == Zrem(old(State()), {j})
    {
      index := index - {j};
    }

    /** The loop of create.lua and enforce-limit.lua over the members to evict. */
    method EvictMembers(members: seq<Jti>)
      modifies this`records, this`index
      ensures State() == Evict(old(State()), Elems(members))
    {
      NothingEvicted(State());
      assert Elems(members[..0]) == {};
      for i := 0 to |members|
        invariant State() == Evict(old(State()), Elems(members[..i]))
      {
        EvictOneMore(old(State()), Elems(members[..i]), members[i]);
        assert Elems(members[..i + 1]) == Elems(members[..i]) + {members[i]};
        var _ := Delete(members[i]);
        Unlink(members[i]);
      }
      assert members[..|members|] == members;
    }

    /** ZRANGE 0 n-1 and the eviction of what it lists. */
    method EvictOldest(n: nat) returns (evicted: set<Jti>)
      modifies this`records, this`index
      ensures evicted == OldestSet(old(index), n)
      ensures State() == Evict(old(State()), evicted)
    {
      var members := Oldest(index, n);
      OldestElems(index, n);
      evicted := Elems(members);
      EvictMembers(members);
    }

    /** The eviction that create.lua and enforce-limit.lua share. */
    method EvictSurplus(limit: nat, bound: nat) returns (evicted: set<Jti>)
      modifies this`records, this`index
      ensures evicted == Surplus(old(index), limit, bound)
      ensures State() == Evict(old(State()), evicted)
    {
      NothingEvicted(State());
      evicted := {};
      if limit > 0 {
        var card := |index|;
        if card > limit {
          var excess := card - limit;
          evicted := EvictOldest(Min(excess, bound));
        }
      }
    }

    /** create.lua from the collision check on. */
    method Insert(cfg: Config, env: Envelope, j: Jti, createdAt: int, ttl: int) returns (reply: CreateReply)
      modifies this`records, this`index
      ensures (State(), reply) == Admit(cfg, old(State()), env, j, createdAt, ttl)
    {
      if j in records {
        return CreateCollision;
      }
      Set(j, env, ttl);
      index := index[j := createdAt];
      var evicted := EvictSurplus(cfg.maxSessionsPerUser, cfg.maxEvictionsPerCall);
      return Created(evicted);
    }

    method Create(cfg: Config, env: Envelope, j: Jti, createdAt: int, ttl: int) returns (reply: CreateReply)
      modifies this
      ensures (State(), reply) == CreateScript(cfg, old(State()), env, j, createdAt, ttl)
    {
      if cfg.enableCreateIdempotency {
        if j in claims {
          return CreateReplayed(claims[j].jti);
        }
        claims := claims[j := Claim(j, now + Min(60, Max(1, ttl)))];
      }
      reply := Insert(cfg, env, j, createdAt, ttl);
    }

    method EnforceLimit(cfg: Config) returns (evicted: set<Jti>)
      modifies this`records, this`index
      ensures (State(), evicted) == EnforceLimitScript(cfg, old(State()))
    {
      evicted := EvictSurplus(cfg.maxSessionsPerUser, cfg.maxEvictionsPerCall);
    }

    method Validate(j: Jti) returns (reply: ValidateReply)
      modifies this
      ensures (State(), reply) == ValidateScript(old(State()), j)
    {
      if j !in records {
        return ValidateMissing;
      }
      var env := records[j].env;
      match env {
        case Plain(s) =>
          if s.status != Active {
            return ValidateInactive(s.status);
          }
          if s.absoluteExpiresAt <= now {
            var _ := Delete(j);
            Unlink(s.jti);
            return ValidateExpired;
          }
          if s.idleExpiresAt.Some? && s.idleExpiresAt.value <= now {
            var _ := Delete(j);
            Unlink(s.jti);
            return ValidateIdle;
          }
          if securityVersion.Some? && s.securityVersion != securityVersion {
            return ValidateSecurity;
          }
        case Encrypted(h, _) =>
          if h.st != Active {
            return ValidateInactive(h.st);
          }
          if h.exp <= now {
            var _ := Delete(j);
            Unlink(j);
            return ValidateExpired;
          }
          if h.idle.Some? && h.idle.value <= now {
            var _ := Delete(j);
            Unlink(j);
            return ValidateIdle;
          }
      }
      return ValidateRead(env, securityVersion);
    }

    method Touch(cfg: Config, j: Jti, force: bool) returns (reply: TouchReply)
      modifies this
      ensures (State(), reply) == TouchScript(cfg, old(State()), j, force)
    {
      if j !in records {
        return TouchMissing;
      }
      if !records[j].env.Plain? {
        return TouchWrongMode;
      }
      var s := records[j].env.s;
      if s.status != Active {
        return TouchInactive;
      }
      if s.absoluteExpiresAt <= now {
        var _ := Delete(j);
        return TouchExpired;
      }
      if s.idleExpiresAt.Some? && s.idleExpiresAt.value <= now {
        return TouchIdle;
      }
      if !force && now - s.lastAccessedAt < cfg.touchInterval {
        return TouchThrottled;
      }
      s := s.(lastAccessedAt := now);
      if cfg.idleTimeout.Some? {
        var idle := now + cfg.idleTimeout.value;
        s := s.(idleExpiresAt := Some(Min(idle, s.absoluteExpiresAt)));
      }
      Set(j, Plain(s), Max(1, s.absoluteExpiresAt - now));
      return Touched;
    }

    method TouchEncrypted(cfg: Config, j: Jti, force: bool, payload: Record, ttl: int) returns (reply: TouchReply)
      modifies this
      ensures (State(), reply) == TouchEncryptedScript(cfg, old(State()), j, force, payload, ttl)
    {
      if j !in records {
        return TouchMissing;
      }
      if !records[j].env.Encrypted? {
        return TouchWrongMode;
      }
      var h := records[j].env.header;
      if h.st != Active {
        return TouchInactive;
      }
      if h.exp <= now {
        var _ := Delete(j);
        return TouchExpired;
      }
      if h.idle.Some? && h.idle.value <= now {
        return TouchIdle;
      }
      if !force && now - h.la < cfg.touchInterval {
        return TouchThrottled;
      }
      var newLa := payload.lastAccessedAt;
      if newLa < h.la {
        return TouchStale;
      }
      var mirror := EncryptedHeaderOf(payload).(st := h.st, la := newLa, idle := payload.idleExpiresAt);
      mirror := mirror.(ver := h.ver, exp := h.exp, rn := h.rn, rj := h.rj);
      Set(j, Encrypted(mirror, payload), ttl);
      return Touched;
    }

    method Rotate(cfg: Config, prev: Jti, next: Record, succ: Jti, expected: Option<nat>, nonce: Option<string>)
      returns (reply: RotateReply)
      modifies this
      ensures (State(), reply) == RotateScript(cfg, old(State()), prev, next, succ, expected, nonce)
    {
      if prev !in records {
        return RotateMissing;
      }
      if !records[prev].env.Plain? {
        return RotateWrongMode;
      }
      var s := records[prev].env.s;
      if s.status == Consumed {
        if nonce.Some? && s.rotationNonceHash == nonce {
          return RotateReplay(s.rotatedTo);
        }
        return RotateInactive;
      }
      if s.status != Active {
        return RotateInactive;
      }
      if s.absoluteExpiresAt <= now {
        var _ := Delete(prev);
        Unlink(prev);
        return RotateExpired;
      }
      if expected.Some? && s.version != expected.value {
        return RotateConflict;
      }
      if succ in records {
        return RotateCollision;
      }
      var ns := next.(createdAt := now, lastAccessedAt := now, rotatedFrom := Some(s.jti), version := 1);
      if ns.idleExpiresAt.Some? {
        ns := ns.(idleExpiresAt := Some(Min(ns.idleExpiresAt.value, ns.absoluteExpiresAt)));
      }
      var nextTtl := Max(1, ns.absoluteExpiresAt - now);
      s := s.(status := Consumed, consumedAt := Some(now), rotatedTo := Some(succ));
      if nonce.Some? {
        s := s.(rotationNonceHash := nonce);
      } else {
        s := s.(rotationNonceHash := None);
      }
      var oldTtl := Max(1, s.absoluteExpiresAt - now);
      if cfg.retainConsumedTombstones {
        Set(prev, Plain(s), oldTtl);
      } else {
        var _ := Delete(prev);
      }
      Set(succ, Plain(ns), nextTtl);
      Unlink(prev);
      index := index[succ := now];
      return Rotated(succ);
    }

    method RotateEncrypted(cfg: Config, prev: Jti, consumed: Record, next: Record, succ: Jti,
                           expected: Option<nat>, nonce: Option<string>, nextTtl: int, tombTtl: int)
      returns (reply: RotateReply)
      modifies this
      ensures (State(), reply) ==
              RotateEncryptedScript(cfg, old(State()), prev, consumed, next, succ, expected, nonce, nextTtl, tombTtl)
    {
      if prev !in records {
        return RotateMissing;
      }
      if !records[prev].env.Encrypted? {
        return RotateWrongMode;
      }
      var h := records[prev].env.header;
      if h.st == Consumed {
        if nonce.Some? && h.rn == nonce {
          return RotateReplay(h.rj);
        }
        return RotateInactive;
      }
      if h.st != Active {
        return RotateInactive;
      }
      if h.exp <= now {
        var _ := Delete(prev);
        Unlink(prev);
        return RotateExpired;
      }
      if expected.Some? && h.ver != expected.value {
        return RotateConflict;
      }
      if succ in records {
        return RotateCollision;
      }
      var tomb := EncryptedHeaderOf(consumed).(st := Consumed, ver := h.ver, la := h.la, idle := h.idle);
      tomb := tomb.(exp := h.exp, rn := None, rj := Some(succ));
      if nonce.Some? {
        tomb := tomb.(rn := nonce);
      }
      var nh := EncryptedHeaderOf(next).(st := Active, ver := 1, la := now);
      if nh.idle.Some? {
        nh := nh.(idle := Some(Min(nh.idle.value, nh.exp)));
      }
      nh := nh.(rn := None, rj := None);
      if cfg.retainConsumedTombstones {
        Set(prev, Encrypted(tomb, consumed), Max(1, tombTtl));
      } else {
        var _ := Delete(prev);
      }
      Set(succ, Encrypted(nh, next), Max(1, nextTtl));
      Unlink(prev);
      index := index[succ := now];
      return Rotated(succ);
    }

    method Update(j: Jti, expected: Option<nat>, patch: Patch) returns (reply: UpdateReply)
      modifies this
      ensures (State(), reply) == UpdateScript(old(State()), j, expected, patch)
    {
      if j !in records {
        return UpdateMissing;
      }
      if !records[j].env.Plain? {
        return UpdateWrongMode;
      }
      var s := records[j].env.s;
      if s.status != Active {
        return UpdateInactive;
      }
      if s.absoluteExpiresAt <= now {
        var _ := Delete(j);
        return UpdateExpired;
      }
      if expected.Some? && s.version != expected.value {
        return UpdateConflict;
      }
      var p := s.profile;
      if patch.deviceId.Some? { p := p.(deviceId := patch.deviceId.value); }
      if patch.ipAddress.Some? { p := p.(ipAddress := patch.ipAddress.value); }
      if patch.userAgent.Some? { p := p.(userAgent := patch.userAgent.value); }
      if patch.metadata.Some? { p := p.(metadata := patch.metadata.value); }
      s := s.(profile := p);
      s := s.(version := s.version + 1);
      Set(j, Plain(s), Max(1, s.absoluteExpiresAt - now));
      return Updated(s.version);
    }

    method UpdateEncrypted(j: Jti, expected: Option<nat>, payload: Record, ttl: int) returns (reply: UpdateReply)
      modifies this
      ensures (State(), reply) == UpdateEncryptedScript(old(State()), j, expected, payload, ttl)
    {
      if j !in records {
        return UpdateMissing;
      }
      if !records[j].env.Encrypted? {
        return UpdateWrongMode;
      }
      var h := records[j].env.header;
      if h.st != Active {
        return UpdateInactive;
      }
      if h.exp <= now {
        var _ := Delete(j);
        return UpdateExpired;
      }
      if expected.Some? && h.ver != expected.value {
        return UpdateConflict;
      }
      var mirror := EncryptedHeaderOf(payload).(st := Active, ver := payload.version);
      mirror := mirror.(exp := h.exp, rn := h.rn, rj := h.rj);
      Set(j, Encrypted(mirror, payload), ttl);
      return Updated(payload.version);
    }

    method Revoke(j: Jti, payload: Option<Record>, ttl: int) returns (reply: RevokeReply)
      modifies this
      ensures (State(), reply) == RevokeScript(old(State()), j, payload, ttl)
    {
      if j !in records {
        return RevokeMissing;
      }
      match records[j].env {
        case Plain(s) =>
          if s.status == Revoked {
            return RevokeAgain;
          }
          Set(j, Plain(s.(status := Revoked)), ttl);
        case Encrypted(h, _) =>
          if h.st == Revoked {
            return RevokeAgain;
          }
          if payload.None? {
            return RevokeNoPayload;
          }
          var mirror := EncryptedHeaderOf(payload.value).(st := Revoked, ver := h.ver, la := h.la, idle := h.idle);
          mirror := mirror.(exp := h.exp, rn := h.rn, rj := h.rj);
          Set(j, Encrypted(mirror, payload.value), ttl);
      }
      return RevokeDone;
    }

    method Destroy(j: Jti) returns (existed: bool)
      modifies this
      ensures (State(), existed) == DeleteScript(old(State()), j)
    {
      existed := Delete(j);
      Unlink(j);
    }

    method CleanupIndex(js: seq<Jti>) returns (removed: seq<Jti>)
      modifies this`index
      ensures (State(), removed) == CleanupIndexScript(old(State()), js)
    {
      removed := [];
      RemoveOneMore(index, [], 0);
      assert js[0..] == js;
      for i := 0 to |js|
        invariant records == old(records)
        invariant removed + Stale(records, js[i..]) == Stale(records, js)
        invariant index == old(index) - Elems(removed)
      {
        assert js[i..][1..] == js[i + 1..];
        if js[i] !in records {
          RemoveOneMore(old(index), removed, js[i]);
          Unlink(js[i]);
          removed := removed + [js[i]];
        }
      }
      assert removed + [] == removed;
    }

    method DeleteBatch(js: seq<Jti>) returns (deleted: seq<Jti>)
      modifies this
      ensures (State(), deleted) == DeleteBatchScript(old(State()), js)
    {
      deleted := [];
      assert js[0..] == js;
      for i := 0 to |js|
        invariant DeleteBatchScript(old(State()), js).0 == DeleteBatchScript(State(), js[i..]).0
        invariant DeleteBatchScript(old(State()), js).1 == deleted + DeleteBatchScript(State(), js[i..]).1
      {
        assert js[i..][1..] == js[i + 1..];
        ghost var before := State();
        var existed := Delete(js[i]);
        Unlink(js[i]);
        ghost var rest := DeleteBatchScript(State(), js[i + 1..]);
        assert State() == Zrem(Del(before, {js[i]}), {js[i]});
        assert DeleteBatchScript(before, js[i..]) == (rest.0, (if existed then [js[i]] else []) + rest.1);
        if existed {
          assert deleted + ([js[i]] + rest.1) == deleted + [js[i]] + rest.1;
          deleted := deleted + [js[i]];
        } else {
          assert deleted + ([] + rest.1) == deleted + rest.1;
        }
      }
      index := map[];
      assert deleted + [] == deleted;
    }
  }
}
