/**
 * Multi-key reads and writes of client.ts in cluster mode, against the single commands they replace.
 * The server refuses a command whose keys are not all in one of its slots.
 */
module ClusterKeys {
  import opened Wrappers
  import opened Crc16
  import opened SlotGroups
  import opened ClusterSlots
  import opened SessionKeys

  type Data = map<Text, string>

  type Pair = (Text, string)

  function Get(data: Data, key: Text): Option<string> {
    if key in data then Some(data[key]) else None
  }

  /** MSET: the pairs are stored in order, so the last one for a key stays. */
  function MSet(data: Data, pairs: seq<Pair>): Data {
    if pairs == [] then data
    else
      var (key, value) := pairs[|pairs| - 1];
      MSet(data, pairs[..|pairs| - 1])[key := value]
  }

  function MGet(data: Data, keys: seq<Text>): seq<Option<string>> {
    seq(|keys|, i requires 0 <= i < |keys| => Get(data, keys[i]))
  }

  function KeysOf(pairs: seq<Pair>): seq<Text> {
    seq(|pairs|, i requires 0 <= i < |pairs| => pairs[i].0)
  }

  // ---------------------------------------------------------------- what the server accepts

  /** No CROSSSLOT error: the keys of one command are in one slot of the server's. */
  predicate Accepts(serverSlot: Text -> nat, keys: seq<Text>) {
    forall i, j | 0 <= i < j < |keys| :: serverSlot(keys[i]) == serverSlot(keys[j])
  }

  /** Keys that the client puts into one group are in one slot of the server's. */
  predicate Compatible(slotOf: Text -> nat, serverSlot: Text -> nat, keys: seq<Text>) {
    forall i, j | 0 <= i < |keys| && 0 <= j < |keys| && slotOf(keys[i]) == slotOf(keys[j]) ::
      serverSlot(keys[i]) == serverSlot(keys[j])
  }

  /** Every group is accepted exactly if the client's slots are compatible with the server's. */
  lemma GroupsAcceptedIffCompatible(slotOf: Text -> nat, serverSlot: Text -> nat, keys: seq<Text>)
    ensures (forall i | 0 <= i < |keys| :: Accepts(serverSlot, Bucket(slotOf, keys, slotOf(keys[i])))) <==>
            Compatible(slotOf, serverSlot, keys)
  {
    forall i | 0 <= i < |keys| ensures Accepts(serverSlot, Bucket(slotOf, keys, slotOf(keys[i]))) ==>
      forall j | 0 <= j < |keys| && slotOf(keys[i]) == slotOf(keys[j]) :: serverSlot(keys[i]) == serverSlot(keys[j])
    {
      var bucket := Bucket(slotOf, keys, slotOf(keys[i]));
      if Accepts(serverSlot, bucket) {
        forall j | 0 <= j < |keys| && slotOf(keys[i]) == slotOf(keys[j])
          ensures serverSlot(keys[i]) == serverSlot(keys[j])
        {
          BucketElements(slotOf, keys, slotOf(keys[i]), keys[i]);
          BucketElements(slotOf, keys, slotOf(keys[i]), keys[j]);
          AcceptedTogether(serverSlot, bucket, keys[i], keys[j]);
        }
      }
    }
    if Compatible(slotOf, serverSlot, keys) {
      forall i | 0 <= i < |keys| ensures Accepts(serverSlot, Bucket(slotOf, keys, slotOf(keys[i]))) {
        CompatibleBucket(slotOf, serverSlot, keys, slotOf(keys[i]));
      }
    }
  }

  lemma AcceptedTogether(serverSlot: Text -> nat, keys: seq<Text>, a: Text, b: Text)
    requires Accepts(serverSlot, keys) && a in keys && b in keys
    ensures serverSlot(a) == serverSlot(b)
  {
  }

  lemma CompatibleBucket(slotOf: Text -> nat, serverSlot: Text -> nat, keys: seq<Text>, slot: nat)
    requires Compatible(slotOf, serverSlot, keys)
    ensures Accepts(serverSlot, Bucket(slotOf, keys, slot))
  {
    var bucket := Bucket(slotOf, keys, slot);
    forall i, j | 0 <= i < j < |bucket| ensures serverSlot(bucket[i]) == serverSlot(bucket[j]) {
      BucketElements(slotOf, keys, slot, bucket[i]);
      BucketElements(slotOf, keys, slot, bucket[j]);
    }
  }

  /** Keys that share one hash tag are always compatible: both sides hash the tag alone. */
  lemma SharedTagIsCompatible(keys: seq<Text>)
    requires forall i, j | 0 <= i < j < |keys| :: HashTag(keys[i]) == HashTag(keys[j])
    ensures Compatible(Slot, ClusterSlot, keys) && Accepts(ClusterSlot, keys)
  {
  }

  /** So are the keys of one user, in any number and of any family. */
  lemma UserKeysAreCompatible(ns: Text, names: seq<Name>, user: Text)
    requires IsNamespace(ns)
    requires forall i | 0 <= i < |names| :: names[i].IsValid() && names[i].HasUser() && names[i].user == user
    ensures var keys := seq(|names|, i requires 0 <= i < |names| => Key(ns, names[i]));
      Compatible(Slot, ClusterSlot, keys) && Accepts(ClusterSlot, keys)
  {
    var keys := seq(|names|, i requires 0 <= i < |names| => Key(ns, names[i]));
    forall i | 0 <= i < |names| ensures HashTag(keys[i]) == Encode(user) {
      TagIsUser(ns, names[i]);
    }
    SharedTagIsCompatible(keys);
  }

  /** The client's slots are not the server's: it groups "a0c" and "bpb", which the server refuses together. */
  lemma GroupCanBeRefused()
    ensures !Compatible(Slot, ClusterSlot, [A0C, BPB])
  {
    SameSlotApart();
    var keys := [A0C, BPB];
    assert Slot(keys[0]) == Slot(keys[1]) && ClusterSlot(keys[0]) != ClusterSlot(keys[1]);
  }

  // ---------------------------------------------------------------- mset

  function PairSlot(slotOf: Text -> nat): Pair -> nat {
    (p: Pair) => slotOf(p.0)
  }

  function PairsOf(slotOf: Text -> nat, pairs: seq<Pair>, slot: nat): seq<Pair> {
    Bucket(PairSlot(slotOf), pairs, slot)
  }

  lemma MSetLast(data: Data, pairs: seq<Pair>, p: Pair)
    ensures MSet(data, pairs + [p]) == MSet(data, pairs)[p.0 := p.1]
  {
    assert (pairs + [p])[..|pairs|] == pairs;
  }

  /** What a key ends up with depends on the pairs of its own slot only. */
  lemma {:induction false} OwnSlotDecides(slotOf: Text -> nat, data: Data, pairs: seq<Pair>, key: Text)
    ensures Get(MSet(data, PairsOf(slotOf, pairs, slotOf(key))), key) == Get(MSet(data, pairs), key)
  {
    if pairs != [] {
      var init, last := pairs[..|pairs| - 1], pairs[|pairs| - 1];
      OwnSlotDecides(slotOf, data, init, key);
      MSetLast(data, PairsOf(slotOf, init, slotOf(key)), last);
      assert PairsOf(slotOf, init, slotOf(key)) + [] == PairsOf(slotOf, init, slotOf(key));
    }
  }

  lemma {:induction false} OtherSlotStays(slotOf: Text -> nat, data: Data, pairs: seq<Pair>, slot: nat, key: Text)
    requires slotOf(key) != slot
    ensures Get(MSet(data, PairsOf(slotOf, pairs, slot)), key) == Get(data, key)
  {
    if pairs != [] {
      var init, last := pairs[..|pairs| - 1], pairs[|pairs| - 1];
      OtherSlotStays(slotOf, data, init, slot, key);
      MSetLast(data, PairsOf(slotOf, init, slot), last);
      assert PairsOf(slotOf, init, slot) + [] == PairsOf(slotOf, init, slot);
    }
  }

  /** The slots of `order` hold what the whole batch leaves, the others what they held before. */
  ghost predicate StoredFor(slotOf: Text -> nat, data: Data, pairs: seq<Pair>, order: seq<nat>, after: Data) {
    forall key :: Get(after, key) == if slotOf(key) in order then Get(MSet(data, pairs), key) else Get(data, key)
  }

  lemma {:induction false} MSetFrom(a: Data, b: Data, pairs: seq<Pair>, key: Text)
    requires Get(a, key) == Get(b, key)
    ensures Get(MSet(a, pairs), key) == Get(MSet(b, pairs), key)
  {
    if pairs != [] {
      MSetFrom(a, b, pairs[..|pairs| - 1], key);
    }
  }

  /** Storing one more group, even one stored before, extends what is stored. */
  lemma StoreGroup(slotOf: Text -> nat, data: Data, pairs: seq<Pair>, order: seq<nat>, after: Data, slot: nat)
    requires StoredFor(slotOf, data, pairs, order, after) && slot !in order
    ensures StoredFor(slotOf, data, pairs, order + [slot], MSet(after, PairsOf(slotOf, pairs, slot)))
  {
    forall key ensures Get(MSet(after, PairsOf(slotOf, pairs, slot)), key) ==
                       if slotOf(key) in order + [slot] then Get(MSet(data, pairs), key) else Get(data, key)
    {
      if slotOf(key) == slot {
        MSetFrom(after, data, PairsOf(slotOf, pairs, slot), key);
        OwnSlotDecides(slotOf, data, pairs, key);
      } else {
        OtherSlotStays(slotOf, after, pairs, slot, key);
      }
    }
  }

  lemma Untouched(slotOf: Text -> nat, data: Data, pairs: seq<Pair>, key: Text)
    requires slotOf(key) !in Order(PairSlot(slotOf), pairs)
    ensures Get(MSet(data, pairs), key) == Get(data, key)
  {
    EmptyBucket(PairSlot(slotOf), pairs, slotOf(key));
    OwnSlotDecides(slotOf, data, pairs, key);
  }

  lemma SameGets(a: Data, b: Data)
    requires forall key :: Get(a, key) == Get(b, key)
    ensures a == b
  {
    forall key ensures (key in a <==> key in b) && (key in a ==> a[key] == b[key]) {
      assert Get(a, key) == Get(b, key);
    }
  }

  /** The bucket of a slot, as keys. */
  lemma {:induction false} BucketKeys(slotOf: Text -> nat, pairs: seq<Pair>, slot: nat)
    ensures KeysOf(PairsOf(slotOf, pairs, slot)) == Bucket(slotOf, KeysOf(pairs), slot)
  {
    if pairs != [] {
      var init, last := pairs[..|pairs| - 1], pairs[|pairs| - 1];
      BucketKeys(slotOf, init, slot);
      BucketLast(slotOf, KeysOf(init), last.0, slot);
      assert KeysOf(pairs) == KeysOf(init) + [last.0];
      if slotOf(last.0) == slot {
        assert KeysOf(PairsOf(slotOf, init, slot) + [last]) == KeysOf(PairsOf(slotOf, init, slot)) + [last.0];
      } else {
        assert PairsOf(slotOf, init, slot) + [] == PairsOf(slotOf, init, slot);
      }
    }
  }

  /** The group with this place in the Map is accepted. */
  predicate GroupAccepted(slotOf: Text -> nat, serverSlot: Text -> nat, pairs: seq<Pair>, order: seq<nat>, g: nat)
    requires g < |order|
  {
    Accepts(serverSlot, KeysOf(PairsOf(slotOf, pairs, order[g])))
  }

  lemma AllAcceptedIffCompatible(slotOf: Text -> nat, serverSlot: Text -> nat, pairs: seq<Pair>, order: seq<nat>,
                                 groups: map<nat, seq<Pair>>)
    requires Grouped(PairSlot(slotOf), pairs, order, groups)
    ensures (forall g | 0 <= g < |order| :: GroupAccepted(slotOf, serverSlot, pairs, order, g)) <==>
            Compatible(slotOf, serverSlot, KeysOf(pairs))
  {
    var keys := KeysOf(pairs);
    GroupsAcceptedIffCompatible(slotOf, serverSlot, keys);
    forall s ensures KeysOf(PairsOf(slotOf, pairs, s)) == Bucket(slotOf, keys, s) {
      BucketKeys(slotOf, pairs, s);
    }
    if forall g | 0 <= g < |order| :: GroupAccepted(slotOf, serverSlot, pairs, order, g) {
      OrderComplete(PairSlot(slotOf), pairs);
      forall i | 0 <= i < |keys| ensures Accepts(serverSlot, Bucket(slotOf, keys, slotOf(keys[i]))) {
        assert PairSlot(slotOf)(pairs[i]) in order;
        var g :| 0 <= g < |order| && order[g] == slotOf(keys[i]);
        assert GroupAccepted(slotOf, serverSlot, pairs, order, g);
      }
    }
    if Compatible(slotOf, serverSlot, keys) {
      forall g | 0 <= g < |order| ensures GroupAccepted(slotOf, serverSlot, pairs, order, g) {
        CompatibleBucket(slotOf, serverSlot, keys, order[g]);
      }
    }
  }

  lemma AllStored(slotOf: Text -> nat, data: Data, pairs: seq<Pair>, order: seq<nat>, groups: map<nat, seq<Pair>>,
                  after: Data)
    requires Grouped(PairSlot(slotOf), pairs, order, groups) && StoredFor(slotOf, data, pairs, order, after)
    ensures after == MSet(data, pairs)
  {
    forall key ensures Get(after, key) == Get(MSet(data, pairs), key) {
      if slotOf(key) !in order {
        Untouched(slotOf, data, pairs, key);
      }
    }
    SameGets(after, MSet(data, pairs));
  }

  /**
   * One MSET per slot, in the order of the Map, up to the first that the server refuses. All are accepted
   * exactly if the slots are compatible, and then the data is what one MSET of all the pairs would leave,
   * repeated keys included; otherwise the groups before the first refused one are stored, and no other.
   */
  method MSetBySlot(slotOf: Text -> nat, serverSlot: Text -> nat, pairs: seq<Pair>, data: Data)
    returns (ok: bool, after: Data)
    ensures ok <==> Compatible(slotOf, serverSlot, KeysOf(pairs))
    ensures ok ==> after == MSet(data, pairs)
    ensures !ok ==>
      var order := Order(PairSlot(slotOf), pairs);
      exists n :: && 0 <= n < |order| && !GroupAccepted(slotOf, serverSlot, pairs, order, n)
                  && (forall g | 0 <= g < n :: GroupAccepted(slotOf, serverSlot, pairs, order, g))
                  && StoredFor(slotOf, data, pairs, order[..n], after)
  {
    var order, groups := Group(PairSlot(slotOf), pairs);
    OrderDistinct(PairSlot(slotOf), pairs);
    AllAcceptedIffCompatible(slotOf, serverSlot, pairs, order, groups);
    after := data;
    for g := 0 to |order|
      invariant StoredFor(slotOf, data, pairs, order[..g], after)
      invariant forall h | 0 <= h < g :: GroupAccepted(slotOf, serverSlot, pairs, order, h)
    {
      var flat := groups[order[g]];
      assert GroupAccepted(slotOf, serverSlot, pairs, order, g) <==> Accepts(serverSlot, KeysOf(flat));
      if !Accepts(serverSlot, KeysOf(flat)) {
        assert g < |Order(PairSlot(slotOf), pairs)|;
        return false, after;
      }
      assert order[..g + 1] == order[..g] + [order[g]];
      StoreGroup(slotOf, data, pairs, order[..g], after, order[g]);
      after := MSet(after, flat);
    }
    assert order[..|order|] == order;
    AllStored(slotOf, data, pairs, order, groups, after);
    return true, after;
  }

  // ---------------------------------------------------------------- mget

  /** `value || null`: an empty string is falsy. */
  function OrNull(value: Option<string>): Option<string> {
    if value == Some("") then None else value
  }

  /** The results of a group, one key after the other. */
  method StoreResults(results: map<Text, Option<string>>, keys: seq<Text>, values: seq<Option<string>>)
    returns (filled: map<Text, Option<string>>)
    requires |values| == |keys|
    requires forall i, j | 0 <= i < j < |keys| && keys[i] == keys[j] :: values[i] == values[j]
    ensures filled.Keys == results.Keys + (set k | k in keys)
    ensures forall i | 0 <= i < |keys| :: filled[keys[i]] == OrNull(values[i])
    ensures forall k | k in results && k !in keys :: filled[k] == results[k]
  {
    filled := results;
    for i := 0 to |keys|
      invariant filled.Keys == results.Keys + (set k | k in keys[..i])
      invariant forall j | 0 <= j < i :: filled[keys[j]] == OrNull(values[j])
      invariant forall k | k in results && k !in keys[..i] :: filled[k] == results[k]
    {
      filled := filled[keys[i] := OrNull(values[i])];
    }
  }

  /** What the grouped read gives for each key. */
  function MGetOrNull(data: Data, keys: seq<Text>): seq<Option<string>> {
    seq(|keys|, i requires 0 <= i < |keys| => OrNull(Get(data, keys[i])))
  }

  /** The keys of the groups that are no longer pending have been read, and their groups accepted. */
  ghost predicate ReadSoFar(slotOf: Text -> nat, serverSlot: Text -> nat, keys: seq<Text>, data: Data,
                            pending: set<nat>, results: map<Text, Option<string>>)
  {
    && (forall k | k in results :: results[k] == OrNull(Get(data, k)))
    && (forall k | k in keys && slotOf(k) !in pending ::
          k in results && Accepts(serverSlot, Bucket(slotOf, keys, slotOf(k))))
  }

  /** What a worker does with one group. */
  method ReadGroup(slotOf: Text -> nat, serverSlot: Text -> nat, ghost keys: seq<Text>, data: Data,
                   ghost pending: set<nat>, slot: nat, group: seq<Text>, results: map<Text, Option<string>>)
    returns (filled: map<Text, Option<string>>)
    requires ReadSoFar(slotOf, serverSlot, keys, data, pending, results)
    requires group == Bucket(slotOf, keys, slot) && Accepts(serverSlot, group)
    ensures ReadSoFar(slotOf, serverSlot, keys, data, pending - {slot}, filled)
  {
    forall k ensures k in group <==> k in keys && slotOf(k) == slot {
      BucketElements(slotOf, keys, slot, k);
    }
    filled := StoreResults(results, group, MGet(data, group));
  }

  lemma AllRead(slotOf: Text -> nat, serverSlot: Text -> nat, keys: seq<Text>, data: Data,
                results: map<Text, Option<string>>)
    requires ReadSoFar(slotOf, serverSlot, keys, data, {}, results)
    ensures Compatible(slotOf, serverSlot, keys)
    ensures forall i | 0 <= i < |keys| :: keys[i] in results && results[keys[i]] == OrNull(Get(data, keys[i]))
  {
    GroupsAcceptedIffCompatible(slotOf, serverSlot, keys);
  }

  /**
   * One MGET per slot, the groups taken by the workers in any order. A node that refuses or does not know
   * a group leaves it to the routed client, whose MGET the server accepts or refuses by the same rule. None
   * stands for the rejection of the whole read.
   */
  method MGetBySlot(slotOf: Text -> nat, serverSlot: Text -> nat, keys: seq<Text>, data: Data)
    returns (values: Option<seq<Option<string>>>)
    ensures values.Some? <==> Compatible(slotOf, serverSlot, keys)
    ensures values.Some? ==> values.value == MGetOrNull(data, keys)
  {
    var order, groups := Group(slotOf, keys);
    OrderComplete(slotOf, keys);
    var results: map<Text, Option<string>> := map[];
    var pending := set s | s in order;
    while pending != {}
      invariant forall s | s in pending :: s in groups
      invariant ReadSoFar(slotOf, serverSlot, keys, data, pending, results)
      decreases pending
    {
      var slot :| slot in pending;
      if !Accepts(serverSlot, groups[slot]) {
        RefusedGroup(slotOf, serverSlot, keys, slot);
        return None;
      }
      results := ReadGroup(slotOf, serverSlot, keys, data, pending, slot, groups[slot], results);
      pending := pending - {slot};
    }
    AllRead(slotOf, serverSlot, keys, data, results);
    var list := ReadResults(results, keys, data);
    return Some(list);
  }

  lemma RefusedGroup(slotOf: Text -> nat, serverSlot: Text -> nat, keys: seq<Text>, slot: nat)
    requires !Accepts(serverSlot, Bucket(slotOf, keys, slot))
    ensures !Compatible(slotOf, serverSlot, keys)
  {
    if Compatible(slotOf, serverSlot, keys) {
      CompatibleBucket(slotOf, serverSlot, keys, slot);
    }
  }

  /** keys.map(key => results.get(key) || null) */
  method ReadResults(results: map<Text, Option<string>>, keys: seq<Text>, ghost data: Data)
    returns (values: seq<Option<string>>)
    requires forall i | 0 <= i < |keys| :: keys[i] in results && results[keys[i]] == OrNull(Get(data, keys[i]))
    ensures values == MGetOrNull(data, keys)
  {
    values := [];
    for i := 0 to |keys|
      invariant values == MGetOrNull(data, keys[..i])
    {
      values := values + [OrNull(results[keys[i]])];
      assert MGetOrNull(data, keys[..i + 1]) == MGetOrNull(data, keys[..i]) + [OrNull(Get(data, keys[i]))];
    }
    assert keys[..|keys|] == keys;
  }

  /** The cluster's read equals a plain MGET exactly when no requested key holds an empty string. */
  lemma MGetAgreesUnlessEmpty(data: Data, keys: seq<Text>)
    ensures MGetOrNull(data, keys) == MGet(data, keys) <==>
            forall i | 0 <= i < |keys| :: Get(data, keys[i]) != Some("")
  {
    if MGetOrNull(data, keys) == MGet(data, keys) {
      forall i | 0 <= i < |keys| ensures Get(data, keys[i]) != Some("") {
        assert MGetOrNull(data, keys)[i] == MGet(data, keys)[i];
      }
    }
  }
}
