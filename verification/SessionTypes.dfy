/** The per-user session state kept in Redis: records, index, claims and clock. */
module SessionTypes {
  import opened Wrappers

  /** Session ids are opaque; their numeric order stands for the byte order of ZSET members. */
  type Jti = nat

  datatype Status = Active | Consumed | Revoked

  /** The fields that an update may change. */
  datatype Profile = Profile(
    deviceId: Option<string>,
    ipAddress: Option<string>,
    userAgent: Option<string>,
    metadata: Option<string>)

  /** An absent field is left alone; a present one, null included, is written. */
  datatype Patch = Patch(
    deviceId: Option<Option<string>>,
    ipAddress: Option<Option<string>>,
    userAgent: Option<Option<string>>,
    metadata: Option<Option<string>>)

  function Patched(p: Profile, patch: Patch): Profile {
    Profile(
      if patch.deviceId.Some? then patch.deviceId.value else p.deviceId,
      if patch.ipAddress.Some? then patch.ipAddress.value else p.ipAddress,
      if patch.userAgent.Some? then patch.userAgent.value else p.userAgent,
      if patch.metadata.Some? then patch.metadata.value else p.metadata)
  }

  /** All timestamps are Unix seconds. */
  datatype Record = Record(
    jti: Jti,
    createdAt: int,
    lastAccessedAt: int,
    absoluteExpiresAt: int,
    idleExpiresAt: Option<int>,
    status: Status,
    version: nat,
    securityVersion: Option<nat>,
    profile: Profile,
    rotatedFrom: Option<Jti>,
    rotatedTo: Option<Jti>,
    consumedAt: Option<int>,
    rotationNonceHash: Option<string>)

  /** The plaintext mirrors of an encrypted envelope. */
  datatype Header = Header(
    st: Status,
    ver: nat,
    la: int,
    idle: Option<int>,
    exp: int,
    rn: Option<string>,
    rj: Option<Jti>)

  /** `payload` is what the ciphertext decrypts to. */
  datatype Envelope = Plain(s: Record) | Encrypted(header: Header, payload: Record)

  function EncryptedHeaderOf(r: Record): Header {
    Header(r.status, r.version, r.lastAccessedAt, r.idleExpiresAt, r.absoluteExpiresAt,
           r.rotationNonceHash, r.rotatedTo)
  }

  /** What a script can read of an envelope: the record itself, or the mirrors. */
  function Mirror(env: Envelope): Header {
    match env
    case Plain(s) => EncryptedHeaderOf(s)
    case Encrypted(header, _) => header
  }

  /** What the application reads: the record, or the decrypted payload. */
  function Content(env: Envelope): Record {
    match env
    case Plain(s) => s
    case Encrypted(_, payload) => payload
  }

  function Seal(r: Record): Envelope {
    Encrypted(EncryptedHeaderOf(r), r)
  }

  datatype Entry = Entry(env: Envelope, deadline: int)

  datatype Claim = Claim(jti: Jti, deadline: int)

  datatype Store = Store(
    now: int,
    records: map<Jti, Entry>,
    index: map<Jti, int>,
    claims: map<Jti, Claim>,
    securityVersion: Option<nat>)

  const EMPTY_STORE := Store(0, map[], map[], map[], None)

  datatype Settings = Settings(
    ttl: nat,
    idleTimeout: Option<nat>,
    touchInterval: nat,
    maxSessionsPerUser: nat,
    maxEvictionsPerCall: nat,
    maxSessionsPerUserHardCap: nat,
    maxBatchSize: nat,
    retainConsumedTombstones: bool,
    enableCreateIdempotency: bool)
  {
    /** The bounds that the configuration schema enforces. */
    predicate Valid() {
      && ttl >= 1
      && (idleTimeout.Some? ==> 1 <= idleTimeout.value <= ttl)
      && touchInterval <= ttl
      && maxEvictionsPerCall >= 1
      && maxBatchSize >= 1
    }
  }

  type Config = c: Settings | c.Valid()
    witness Settings(1, None, 0, 0, 1, 0, 1, true, false)
}

/** The Redis sorted set of a user: members ordered by (score, member). */
module SortedSet {
  import opened Wrappers
  import opened SessionTypes

  predicate Before(z: map<Jti, int>, a: Jti, b: Jti)
    requires a in z && b in z
  {
    z[a] < z[b] || (z[a] == z[b] && a < b)
  }

  /** The members that come before k. */
  function Ahead(z: map<Jti, int>, keys: set<Jti>, k: Jti): set<Jti>
    requires keys <= z.Keys && k in z
  {
    set a | a in keys && Before(z, a, k)
  }

  /** The members that ZRANGE z 0 n-1 lists, for n >= 1. */
  function OldestSet(z: map<Jti, int>, n: nat): set<Jti> {
    set k | k in z && |Ahead(z, z.Keys, k)| < n
  }

  lemma AheadGrows(z: map<Jti, int>, keys: set<Jti>, a: Jti, b: Jti)
    requires keys <= z.Keys && a in keys && b in z && Before(z, a, b)
    ensures |Ahead(z, keys, a)| < |Ahead(z, keys, b)|
  {
    var rest := Ahead(z, keys, b) - Ahead(z, keys, a);
    assert Ahead(z, keys, a) <= Ahead(z, keys, b) && a in rest;
    assert Ahead(z, keys, b) == Ahead(z, keys, a) + rest;
  }

  /** Every member of the range comes before every member left out of it. */
  lemma OldestAreFirst(z: map<Jti, int>, n: nat, a: Jti, b: Jti)
    requires a in OldestSet(z, n) && b in z && b !in OldestSet(z, n)
    ensures Before(z, a, b)
  {
    if !Before(z, a, b) {
      AheadGrows(z, z.Keys, b, a);
    }
  }

  predicate IsLeast(z: map<Jti, int>, keys: set<Jti>, m: Jti)
    requires keys <= z.Keys
  {
    m in keys && forall k | k in keys && k != m :: Before(z, m, k)
  }

  lemma LeastExists(z: map<Jti, int>, keys: set<Jti>)
    requires keys <= z.Keys && keys != {}
    ensures exists m :: IsLeast(z, keys, m)
  {
    var a :| a in keys;
    var rest := keys - {a};
    assert keys == rest + {a};
    if rest == {} {
      assert IsLeast(z, keys, a);
    } else {
      LeastExists(z, rest);
      var m :| IsLeast(z, rest, m);
      assert IsLeast(z, keys, if Before(z, a, m) then a else m);
    }
  }

  function Least(z: map<Jti, int>, keys: set<Jti>): (m: Jti)
    requires keys <= z.Keys && keys != {}
    ensures IsLeast(z, keys, m)
  {
    LeastExists(z, keys);
    var m :| m in keys && IsLeast(z, keys, m);
    m
  }

  /** The n first of `keys`, oldest first. */
  function Firsts(z: map<Jti, int>, keys: set<Jti>, n: nat): seq<Jti>
    requires keys <= z.Keys
    decreases n
  {
    if n == 0 || keys == {} then []
    else
      var m := Least(z, keys);
      [m] + Firsts(z, keys - {m}, n - 1)
  }

  /** ZRANGE z 0 n-1 for n >= 1, as a list. */
  function Oldest(z: map<Jti, int>, n: nat): seq<Jti> {
    Firsts(z, z.Keys, n)
  }

  function Elems(s: seq<Jti>): set<Jti> {
    set k | k in s
  }

  predicate Distinct(js: seq<Jti>) {
    forall i, j | 0 <= i < j < |js| :: js[i] != js[j]
  }

  lemma RemoveOneMore<V>(z: map<Jti, V>, s: seq<Jti>, k: Jti)
    ensures z - Elems([]) == z
    ensures z - Elems(s) - {k} == z - Elems(s + [k])
  {
    assert Elems(s + [k]) == Elems(s) + {k};
  }

  /** Without its least member, every other member moves up by one. */
  lemma AheadWithoutLeast(z: map<Jti, int>, keys: set<Jti>, m: Jti, k: Jti)
    requires keys <= z.Keys && k in keys && IsLeast(z, keys, m)
    ensures k == m ==> Ahead(z, keys, k) == {}
    ensures k != m ==> |Ahead(z, keys, k)| == 1 + |Ahead(z, keys - {m}, k)|
  {
    if k != m {
      assert Ahead(z, keys, k) == {m} + Ahead(z, keys - {m}, k);
    }
  }

  lemma {:induction false} FirstsRank(z: map<Jti, int>, keys: set<Jti>, n: nat, k: Jti)
    requires keys <= z.Keys && k in keys
    ensures k in Firsts(z, keys, n) <==> |Ahead(z, keys, k)| < n
    decreases n
  {
    if n > 0 {
      var m := Least(z, keys);
      AheadWithoutLeast(z, keys, m, k);
      if k != m {
        FirstsRank(z, keys - {m}, n - 1, k);
      }
    }
  }

  lemma {:induction false} FirstsDistinct(z: map<Jti, int>, keys: set<Jti>, n: nat)
    requires keys <= z.Keys
    ensures Distinct(Firsts(z, keys, n)) && |Firsts(z, keys, n)| == Min(n, |keys|)
    ensures forall k | k in Firsts(z, keys, n) :: k in keys
    decreases n
  {
    if n > 0 && keys != {} {
      FirstsDistinct(z, keys - {Least(z, keys)}, n - 1);
    }
  }

  lemma {:induction false} DistinctSize(s: seq<Jti>)
    requires Distinct(s)
    ensures |Elems(s)| == |s|
  {
    if s == [] {
      assert Elems(s) == {};
    } else {
      DistinctSize(s[1..]);
      assert s == [s[0]] + s[1..];
      assert Elems(s) == {s[0]} + Elems(s[1..]);
    }
  }

  lemma OldestElems(z: map<Jti, int>, n: nat)
    ensures Elems(Oldest(z, n)) == OldestSet(z, n)
    ensures Distinct(Oldest(z, n)) && |Oldest(z, n)| == Min(n, |z|)
  {
    FirstsDistinct(z, z.Keys, n);
    forall k | k in z ensures k in Oldest(z, n) <==> k in OldestSet(z, n) {
      FirstsRank(z, z.Keys, n, k);
    }
  }

  lemma OldestCount(z: map<Jti, int>, n: nat)
    ensures OldestSet(z, n) <= z.Keys
    ensures |OldestSet(z, n)| == Min(n, |z|)
    ensures |z - OldestSet(z, n)| == |z| - Min(n, |z|)
  {
    OldestElems(z, n);
    DistinctSize(Oldest(z, n));
    assert (z - OldestSet(z, n)).Keys == z.Keys - OldestSet(z, n);
  }

  /** `gone` is an initial part of the order: its members come before all the others. */
  predicate IsFront(z: map<Jti, int>, gone: set<Jti>) {
    gone <= z.Keys && forall a, b | a in gone && b in z && b !in gone :: Before(z, a, b)
  }

  lemma OldestIsFront(z: map<Jti, int>, n: nat)
    ensures IsFront(z, OldestSet(z, n)) && |OldestSet(z, n)| == Min(n, |z|)
  {
    OldestCount(z, n);
    forall a, b | a in OldestSet(z, n) && b in z && b !in OldestSet(z, n) ensures Before(z, a, b) {
      OldestAreFirst(z, n, a, b);
    }
  }

  /** Removing a front, and then a front of what is left, removes a front. */
  lemma FrontTwice(z: map<Jti, int>, a: set<Jti>, b: set<Jti>)
    requires IsFront(z, a) && IsFront(z - a, b)
    ensures IsFront(z, a + b) && |a + b| == |a| + |b|
  {
  }

  /** The size of a front determines it. */
  lemma FrontsEqual(z: map<Jti, int>, a: set<Jti>, b: set<Jti>)
    requires IsFront(z, a) && IsFront(z, b) && |a| == |b|
    ensures a == b
  {
    assert a == (a * b) + (a - b) && b == (a * b) + (b - a);
    if a - b != {} {
      var x :| x in a - b;
      var y :| y in b - a;
      OneComesFirst(z, x, y);
    }
  }

  lemma OneComesFirst(z: map<Jti, int>, x: Jti, y: Jti)
    requires x in z && y in z && x != y
    ensures Before(z, x, y) <==> !Before(z, y, x)
  {
  }
}
