/**
 * The fixed-window rate limiter. A consume is three separate Redis commands (INCR, EXPIRE on the
 * first count, TTL), and the commands of any number of clients interleave. Times are milliseconds.
 */
module FixedWindows {
  import opened Wrappers
  import opened RateLimits

  datatype Counter = Counter(count: nat, deadline: Option<int>)

  // ---------------------------------------------------------------- the three commands

  function Incr(key: Option<Counter>): Option<Counter> {
    match key
    case None => Some(Counter(1, None))
    case Some(c) => Some(c.(count := c.count + 1))
  }

  /** EXPIRE with a time that is not positive deletes the key. */
  function Expire(key: Option<Counter>, now: int, seconds: int): Option<Counter> {
    match key
    case None => None
    case Some(c) => if seconds <= 0 then None else Some(c.(deadline := Some(now + seconds * 1000)))
  }

  /** TTL: whole seconds, rounded; -1 without a deadline and -2 without a key. */
  function Ttl(key: Option<Counter>, now: int): int {
    match key
    case None => -2
    case Some(c) => if c.deadline.None? then -1 else (c.deadline.value - now + 500) / 1000
  }

  function AnswerTo(l: Limit, count: int, ttl: int, appNow: int): Answer {
    var ttlSeconds := if ttl > 0 then ttl else l.duration;
    Answer(count <= l.limit, l.limit, count, Max(0, l.limit - count), appNow + ttlSeconds * 1000,
           if count <= l.limit then 0 else ttlSeconds)
  }

  // ---------------------------------------------------------------- interleaved clients

  /** Where a client is in its consume. */
  datatype Phase = Counted(count: nat, appNow: int) | Armed(count: nat, appNow: int)

  type Client = nat

  datatype System = System(now: int, key: Option<Counter>, clients: map<Client, Phase>)

  datatype Event =
    | Tick(ms: nat)
    | Drop
    | DoIncr(client: Client, appNow: int)
    | DoExpire(client: Client)
    | DoTtl(client: Client)

  /** The count that a command hands back, or the answer that a consume ends with. */
  datatype Output = Quiet | Count(count: nat) | Answered(answer: Answer)

  /** A command that its client is not ready for does not happen; a client that crashes takes no more steps. */
  function Step(l: Limit, s: System, e: Event): (System, Output) {
    match e
    case Tick(ms) => (s.(now := s.now + ms), Quiet)
    case Drop =>
      (if s.key.Some? && s.key.value.deadline.Some? && s.key.value.deadline.value <= s.now
       then s.(key := None) else s, Quiet)
    case DoIncr(c, appNow) =>
      if c in s.clients then (s, Quiet)
      else
        var key := Incr(s.key);
        var count := key.value.count;
        (s.(key := key, clients := s.clients[c := if count == 1 then Counted(count, appNow) else Armed(count, appNow)]),
         Count(count))
    case DoExpire(c) =>
      if c in s.clients && s.clients[c].Counted?
      then (s.(key := Expire(s.key, s.now, l.duration),
               clients := s.clients[c := Armed(s.clients[c].count, s.clients[c].appNow)]), Quiet)
      else (s, Quiet)
    case DoTtl(c) =>
      if c in s.clients && s.clients[c].Armed?
      then (s.(clients := s.clients - {c}),
            Answered(AnswerTo(l, s.clients[c].count, Ttl(s.key, s.now), s.clients[c].appNow)))
      else (s, Quiet)
  }

  /** One client's consume with nothing in between; the imperative form of consumeFixed. */
  class FixedKey {
    var now: int
    var key: Option<Counter>

    constructor (now: int)
      ensures this.now == now && key == None
    {
      this.now, key := now, None;
    }

    method Increment() returns (count: nat)
      modifies this`key
      ensures key == Incr(old(key)) && count == key.value.count
    {
      if key.None? {
        key := Some(Counter(0, None));
      }
      count := key.value.count + 1;
      key := Some(key.value.(count := count));
    }

    method ConsumeFixed(l: Limit, appNow: int) returns (answer: Answer)
      modifies this`key
      ensures var s1 := Step(l, System(old(now), old(key), map[]), DoIncr(0, appNow)).0;
        var s2 := Step(l, s1, DoExpire(0)).0;
        var (s3, out) := Step(l, s2, DoTtl(0));
        key == s3.key && out == Answered(answer) && s3.clients == map[]
    {
      var count := Increment();
      if count == 1 {
        key := Expire(key, now, l.duration);
      }
      var ttl := Ttl(key, now);
      var ttlSeconds := if ttl > 0 then ttl else l.duration;
      var allowed := count <= l.limit;
      answer := Answer(allowed, l.limit, count, Max(0, l.limit - count), appNow + ttlSeconds * 1000,
                       if allowed then 0 else ttlSeconds);
    }
  }

  // ---------------------------------------------------------------- what is counted

  /** The request that this step allows: its INCR returned a count within the limit. */
  predicate Allows(l: Limit, s: System, e: Event) {
    var out := Step(l, s, e).1; out.Count? && out.count <= l.limit
  }

  /** How many requests a run allows at times in [from, to). */
  function AllowedIn(l: Limit, s: System, es: seq<Event>, from: int, to: int): nat
    decreases |es|
  {
    if es == [] then 0
    else (if Allows(l, s, es[0]) && from <= s.now < to then 1 else 0)
         + AllowedIn(l, Step(l, s, es[0]).0, es[1..], from, to)
  }

  /** A lifetime of the key, counted from 0, and a count reached in it. */
  datatype Grant = Grant(life: nat, rank: nat)

  /** The history of a run: when each lifetime began, and when each allowed request was counted. */
  datatype History = History(births: seq<int>, grants: map<Grant, int>)

  /** An INCR on a missing key begins a lifetime. */
  function Opened(s: System, h: History): History {
    if s.key.None? then h.(births := h.births + [s.now]) else h
  }

  function Granted(l: Limit, h: History, count: nat, now: int): History {
    if count <= l.limit && h.births != [] then h.(grants := h.grants[Grant(|h.births| - 1, count) := now]) else h
  }

  function Record(l: Limit, s: System, h: History, e: Event): History {
    var out := Step(l, s, e).1;
    if out.Count? then Granted(l, Opened(s, h), out.count, s.now) else h
  }

  /** How long a lifetime lasts at least. */
  function Span(l: Limit): int {
    Max(0, l.Millis())
  }

  predicate GrantFits(l: Limit, h: History, g: Grant, at: int) {
    && g.life < |h.births| && 1 <= g.rank <= l.limit
    && h.births[g.life] <= at
    && (g.life + 1 < |h.births| ==> at <= h.births[g.life + 1])
    && (g.rank == 1 ==> at == h.births[g.life])
  }

  ghost predicate BirthsFit(l: Limit, births: seq<int>, now: int) {
    && (forall i | 0 <= i < |births| :: births[i] <= now)
    && (forall i | 0 < i < |births| :: births[i - 1] + Span(l) <= births[i])
  }

  ghost predicate GrantsFit(l: Limit, h: History, now: int) {
    forall g | g in h.grants :: GrantFits(l, h, g, h.grants[g]) && h.grants[g] <= now
  }

  /** The key belongs to the last lifetime, which ends at least a span after it began. */
  ghost predicate KeyFits(l: Limit, s: System, h: History) {
    && (s.key.Some? ==>
          && s.key.value.count >= 1 && h.births != []
          && (s.key.value.deadline.Some? ==> h.births[|h.births| - 1] + Span(l) <= s.key.value.deadline.value)
          && (forall g | g in h.grants && g.life == |h.births| - 1 :: g.rank <= s.key.value.count))
    && (s.key.None? && h.births != [] ==> h.births[|h.births| - 1] + Span(l) <= s.now)
  }

  ghost predicate Consistent(l: Limit, s: System, h: History) {
    BirthsFit(l, h.births, s.now) && GrantsFit(l, h, s.now) && KeyFits(l, s, h)
  }

  /** A new lifetime begins at least a span after the one before it. */
  lemma BirthFits(l: Limit, s: System, h: History)
    requires Consistent(l, s, h) && s.key.None?
    ensures BirthsFit(l, h.births + [s.now], s.now)
    ensures GrantsFit(l, h.(births := h.births + [s.now]), s.now)
  {
    var births := h.births + [s.now];
    forall i | 0 < i < |births| ensures births[i - 1] + Span(l) <= births[i] {
      assert i < |h.births| ==> births[i] == h.births[i];
    }
  }

  lemma GrantAdded(l: Limit, h: History, now: int, g: Grant)
    requires GrantsFit(l, h, now) && GrantFits(l, h, g, now)
    ensures GrantsFit(l, h.(grants := h.grants[g := now]), now)
  {
  }

  /** The counts of a lifetime go up by one each time, so no grant is recorded twice. */
  lemma CountIsNew(l: Limit, s: System, h: History)
    requires Consistent(l, s, h)
    ensures var count, births := Incr(s.key).value.count, Opened(s, h).births;
      && births != [] && (count == 1 <==> s.key.None?)
      && (forall g | g in h.grants && g.life == |births| - 1 :: g.rank < count)
  {
  }

  lemma OpenedFits(l: Limit, s: System, h: History)
    requires Consistent(l, s, h)
    ensures BirthsFit(l, Opened(s, h).births, s.now) && GrantsFit(l, Opened(s, h), s.now)
  {
    if s.key.None? {
      BirthFits(l, s, h);
    }
  }

  lemma CountedKeyFits(l: Limit, s: System, h: History, e: Event)
    requires Consistent(l, s, h) && Step(l, s, e).1.Count?
    ensures KeyFits(l, Step(l, s, e).0, Record(l, s, h, e))
  {
    CountIsNew(l, s, h);
  }

  lemma CountStep(l: Limit, s: System, h: History, e: Event)
    requires Consistent(l, s, h) && Step(l, s, e).1.Count?
    ensures Consistent(l, Step(l, s, e).0, Record(l, s, h, e))
  {
    CountIsNew(l, s, h);
    OpenedFits(l, s, h);
    CountedKeyFits(l, s, h, e);
    var o, count := Opened(s, h), Step(l, s, e).1.count;
    if count <= l.limit {
      GrantAdded(l, o, s.now, Grant(|o.births| - 1, count));
    }
  }

  lemma ConsistentStep(l: Limit, s: System, h: History, e: Event)
    requires Consistent(l, s, h)
    ensures Consistent(l, Step(l, s, e).0, Record(l, s, h, e))
  {
    if Step(l, s, e).1.Count? {
      CountStep(l, s, h, e);
    }
  }

  function InWindow(grants: map<Grant, int>, from: int, to: int): set<Grant> {
    set g | g in grants && from <= grants[g] < to
  }

  lemma AddGrant(grants: map<Grant, int>, g: Grant, at: int, from: int, to: int)
    requires g !in grants
    ensures |InWindow(grants[g := at], from, to)| == |InWindow(grants, from, to)| + (if from <= at < to then 1 else 0)
  {
    assert InWindow(grants[g := at], from, to) == InWindow(grants, from, to) + (if from <= at < to then {g} else {});
  }

  /** The history gains exactly one grant per allowed request. */
  lemma RecordCounts(l: Limit, s: System, h: History, e: Event, from: int, to: int)
    requires Consistent(l, s, h)
    ensures |InWindow(Record(l, s, h, e).grants, from, to)| ==
            |InWindow(h.grants, from, to)| + (if Allows(l, s, e) && from <= s.now < to then 1 else 0)
  {
    if Allows(l, s, e) {
      CountIsNew(l, s, h);
      AddGrant(h.grants, Grant(|Record(l, s, h, e).births| - 1, Step(l, s, e).1.count), s.now, from, to);
    }
  }

  // ---------------------------------------------------------------- the bound

  function Ranks(life: nat, lo: nat, hi: int): (gs: set<Grant>)
    ensures forall g :: g in gs <==> g.life == life && lo <= g.rank <= hi
    ensures |gs| == Max(0, hi - lo + 1)
    decreases hi - lo
  {
    if hi < lo then {} else Ranks(life, lo, hi - 1) + {Grant(life, hi)}
  }

  lemma {:induction false} BirthsAscend(l: Limit, s: System, h: History, i: nat, j: nat)
    requires Consistent(l, s, h) && i <= j < |h.births|
    ensures h.births[i] <= h.births[j]
    decreases j
  {
    if i < j {
      BirthsAscend(l, s, h, i, j - 1);
    }
  }

  /** Two requests allowed within one span belong to the same lifetime or to neighbouring ones. */
  lemma Neighbours(l: Limit, s: System, h: History, from: int, a: Grant, b: Grant)
    requires Consistent(l, s, h)
    requires a in InWindow(h.grants, from, from + Span(l)) && b in InWindow(h.grants, from, from + Span(l))
    ensures b.life <= a.life + 1
    ensures b.life == a.life + 1 ==> a.rank != 1
  {
    if b.life > a.life + 1 {
      BirthsAscend(l, s, h, a.life + 2, b.life);
    }
  }

  lemma SpanBound(l: Limit, s: System, h: History, from: int)
    requires Consistent(l, s, h)
    ensures |InWindow(h.grants, from, from + Span(l))| <= Max(0, 2 * l.limit - 1)
  {
    var w := InWindow(h.grants, from, from + Span(l));
    if exists a, b :: a in w && b in w && b.life == a.life + 1 {
      var a, b :| a in w && b in w && b.life == a.life + 1;
      forall x | x in w ensures x in Ranks(a.life, 2, l.limit) + Ranks(b.life, 1, l.limit) {
        Neighbours(l, s, h, from, a, x);
        Neighbours(l, s, h, from, x, b);
      }
      SubsetSize(w, Ranks(a.life, 2, l.limit) + Ranks(b.life, 1, l.limit));
    } else if w != {} {
      var a :| a in w;
      forall x | x in w ensures x in Ranks(a.life, 1, l.limit) {
        Neighbours(l, s, h, from, a, x);
        Neighbours(l, s, h, from, x, a);
      }
      SubsetSize(w, Ranks(a.life, 1, l.limit));
    }
  }

  lemma {:induction false} BoundFrom(l: Limit, s: System, h: History, es: seq<Event>, from: int)
    requires Consistent(l, s, h)
    ensures |InWindow(h.grants, from, from + Span(l))| + AllowedIn(l, s, es, from, from + Span(l)) <=
            Max(0, 2 * l.limit - 1)
    decreases |es|
  {
    if es == [] {
      SpanBound(l, s, h, from);
    } else {
      ConsistentStep(l, s, h, es[0]);
      RecordCounts(l, s, h, es[0], from, from + Span(l));
      BoundFrom(l, Step(l, s, es[0]).0, Record(l, s, h, es[0]), es[1..], from);
    }
  }

  /**
   * However the commands of however many clients interleave, and however late or lost their EXPIREs
   * are, any half-open interval as long as the duration holds at most 2 * limit - 1 allowed requests.
   */
  lemma TwoWindowsAtMost(l: Limit, start: int, es: seq<Event>, from: int)
    ensures AllowedIn(l, System(start, None, map[]), es, from, from + Span(l)) <= Max(0, 2 * l.limit - 1)
  {
    BoundFrom(l, System(start, None, map[]), History([], map[]), es, from);
  }

  // ---------------------------------------------------------------- one lifetime

  predicate Persists(l: Limit, s: System, es: seq<Event>)
    decreases |es|
  {
    es == [] ||
    (var s' := Step(l, s, es[0]).0; (s.key.Some? ==> s'.key.Some?) && Persists(l, s', es[1..]))
  }

  function CountOf(s: System): nat {
    if s.key.Some? then s.key.value.count else 0
  }

  /** While the key lives, it allows no more than what is left of the limit. */
  lemma {:induction false} LifetimeHolds(l: Limit, s: System, es: seq<Event>, from: int, to: int)
    requires Persists(l, s, es)
    ensures AllowedIn(l, s, es, from, to) <= Max(0, l.limit - CountOf(s))
    decreases |es|
  {
    if es != [] {
      LifetimeHolds(l, Step(l, s, es[0]).0, es[1..], from, to);
    }
  }

  // ---------------------------------------------------------------- runs

  function Run(l: Limit, s: System, es: seq<Event>): System
    decreases |es|
  {
    if es == [] then s else Run(l, Step(l, s, es[0]).0, es[1..])
  }

  // ---------------------------------------------------------------- counts and answers

  function AllowedAnswers(l: Limit, s: System, es: seq<Event>): nat
    decreases |es|
  {
    if es == [] then 0
    else
      var (s', out) := Step(l, s, es[0]);
      (if out.Answered? && out.answer.allowed then 1 else 0) + AllowedAnswers(l, s', es[1..])
  }

  function AllowedCounts(l: Limit, s: System, es: seq<Event>): nat
    decreases |es|
  {
    if es == [] then 0
    else (if Allows(l, s, es[0]) then 1 else 0) + AllowedCounts(l, Step(l, s, es[0]).0, es[1..])
  }

  /** The clients that were counted within the limit and have not been answered yet. */
  function Owed(l: Limit, clients: map<Client, Phase>): set<Client> {
    set c | c in clients && clients[c].count <= l.limit
  }

  lemma OwedJoins(l: Limit, clients: map<Client, Phase>, c: Client, phase: Phase)
    requires c !in clients
    ensures |Owed(l, clients[c := phase])| == |Owed(l, clients)| + (if phase.count <= l.limit then 1 else 0)
  {
    assert Owed(l, clients[c := phase]) == Owed(l, clients) + (if phase.count <= l.limit then {c} else {});
  }

  lemma OwedMoves(l: Limit, clients: map<Client, Phase>, c: Client, phase: Phase)
    requires c in clients && phase.count == clients[c].count
    ensures Owed(l, clients[c := phase]) == Owed(l, clients)
  {
  }

  lemma OwedLeaves(l: Limit, clients: map<Client, Phase>, c: Client)
    requires c in clients
    ensures |Owed(l, clients - {c})| == |Owed(l, clients)| - (if clients[c].count <= l.limit then 1 else 0)
  {
    assert Owed(l, clients - {c}) == Owed(l, clients) - {c};
  }

  lemma OwedStep(l: Limit, s: System, e: Event)
    ensures var (s', out) := Step(l, s, e);
      |Owed(l, s'.clients)| + (if out.Answered? && out.answer.allowed then 1 else 0) ==
      |Owed(l, s.clients)| + (if Allows(l, s, e) then 1 else 0)
  {
    var clients := Step(l, s, e).0.clients;
    if e.DoIncr? && e.client !in s.clients {
      OwedJoins(l, s.clients, e.client, clients[e.client]);
    } else if e.DoExpire? && e.client in s.clients && s.clients[e.client].Counted? {
      OwedMoves(l, s.clients, e.client, clients[e.client]);
    } else if e.DoTtl? && e.client in s.clients && s.clients[e.client].Armed? {
      OwedLeaves(l, s.clients, e.client);
    }
  }

  /** The clients told yes, and those still owed a yes, are exactly the requests counted within the limit. */
  lemma {:induction false} AnswersMatchCounts(l: Limit, s: System, es: seq<Event>)
    ensures AllowedAnswers(l, s, es) + |Owed(l, Run(l, s, es).clients)| ==
            |Owed(l, s.clients)| + AllowedCounts(l, s, es)
    decreases |es|
  {
    if es != [] {
      OwedStep(l, s, es[0]);
      AnswersMatchCounts(l, Step(l, s, es[0]).0, es[1..]);
    }
  }

  // ---------------------------------------------------------------- what the answers say

  /** How long the key still lives, in milliseconds; 0 without a key or a deadline. */
  function Left(s: System): int {
    if s.key.Some? && s.key.value.deadline.Some? then s.key.value.deadline.value - s.now else 0
  }

  /**
   * The hint is the remaining lifetime to within half a second, in whole seconds; but with less than half a
   * second left, as without a deadline, it is the whole duration again.
   */
  lemma AnswerSaysLeft(l: Limit, s: System, c: Client)
    requires c in s.clients && s.clients[c].Armed?
    ensures var (out, phase) := (Step(l, s, DoTtl(c)).1, s.clients[c]);
      && out.Answered?
      && var a := out.answer;
      && a.limit == l.limit && a.used == phase.count
      && (a.allowed <==> a.used <= l.limit) && a.remaining == Max(0, l.limit - a.used)
      && a.retryAfter == (if a.allowed then 0 else (a.resetAt - phase.appNow) / 1000)
      && (a.resetAt - phase.appNow) % 1000 == 0
      && (Left(s) >= 500 ==> a.resetAt - 500 <= phase.appNow + Left(s) < a.resetAt + 500)
      && (Left(s) < 500 ==> a.resetAt == phase.appNow + l.Millis())
  {
  }

  /** The run has no answer for client `c`. */
  predicate Waits(es: seq<Event>, c: Client) {
    forall i | 0 <= i < |es| :: !(es[i].DoTtl? && es[i].client == c)
  }

  lemma {:induction false} PhaseKept(l: Limit, s: System, es: seq<Event>, c: Client)
    requires c in s.clients && Waits(es, c)
    ensures var late := Run(l, s, es);
      && c in late.clients && late.clients[c].count == s.clients[c].count
      && late.clients[c].appNow == s.clients[c].appNow
    decreases |es|
  {
    if es != [] {
      assert !(es[0].DoTtl? && es[0].client == c);
      assert Waits(es[1..], c);
      PhaseKept(l, Step(l, s, es[0]).0, es[1..], c);
    }
  }

  /** The requests that a run counts, allowed or not. */
  function Requests(l: Limit, s: System, es: seq<Event>): nat
    decreases |es|
  {
    if es == [] then 0
    else (if Step(l, s, es[0]).1.Count? then 1 else 0) + Requests(l, Step(l, s, es[0]).0, es[1..])
  }

  lemma {:induction false} CountsAddUp(l: Limit, s: System, es: seq<Event>)
    requires Persists(l, s, es)
    ensures CountOf(Run(l, s, es)) == CountOf(s) + Requests(l, s, es)
    decreases |es|
  {
    if es != [] {
      CountsAddUp(l, Step(l, s, es[0]).0, es[1..]);
    }
  }

  /**
   * However other clients interleave, before its count and between its count and its answer, a client is told
   * its own rank among the requests of the key's lifetime, and how many of the limit that rank leaves.
   */
  lemma AnswerSaysRank(l: Limit, start: int, before: seq<Event>, c: Client, appNow: int, between: seq<Event>)
    requires var blank := System(start, None, map[]);
      Persists(l, blank, before) && c !in Run(l, blank, before).clients && Waits(between, c)
    ensures var blank := System(start, None, map[]);
      var late := Run(l, Step(l, Run(l, blank, before), DoIncr(c, appNow)).0, between);
      var (out, rank) := (Step(l, late, DoTtl(c)).1, Requests(l, blank, before) + 1);
      out.Answered? ==>
        && out.answer.used == rank && (out.answer.allowed <==> rank <= l.limit)
        && out.answer.remaining == Max(0, l.limit - rank)
  {
    var blank := System(start, None, map[]);
    var s := Run(l, blank, before);
    CountsAddUp(l, blank, before);
    PhaseKept(l, Step(l, s, DoIncr(c, appNow)).0, between, c);
  }

  // ---------------------------------------------------------------- the bound is reached

  lemma {:induction false} RunAppend(l: Limit, s: System, a: seq<Event>, b: seq<Event>, from: int, to: int)
    ensures Run(l, s, a + b) == Run(l, Run(l, s, a), b)
    ensures AllowedIn(l, s, a + b, from, to) == AllowedIn(l, s, a, from, to) + AllowedIn(l, Run(l, s, a), b, from, to)
    decreases |a|
  {
    if a == [] {
      assert a + b == b;
    } else {
      assert (a + b)[0] == a[0] && (a + b)[1..] == a[1..] + b;
      RunAppend(l, Step(l, s, a[0]).0, a[1..], b, from, to);
    }
  }

  /** n clients, numbered from `first`, count at once. */
  function Burst(n: nat, first: Client): seq<Event> {
    if n == 0 then [] else [DoIncr(first, 0)] + Burst(n - 1, first + 1)
  }

  predicate ClientsBelow(s: System, first: Client) {
    forall c | c in s.clients :: c < first
  }

  lemma {:induction false} BurstAllows(l: Limit, s: System, n: nat, first: Client, from: int, to: int)
    requires CountOf(s) + n <= l.limit && from <= s.now < to && ClientsBelow(s, first)
    ensures AllowedIn(l, s, Burst(n, first), from, to) == n
    ensures var s' := Run(l, s, Burst(n, first));
      && s'.now == s.now && CountOf(s') == CountOf(s) + n && ClientsBelow(s', first + n)
      && (s.key.Some? ==> s'.key.Some? && s'.key.value.deadline == s.key.value.deadline)
    decreases n
  {
    if n > 0 {
      var burst := Burst(n, first);
      assert burst[1..] == Burst(n - 1, first + 1);
      BurstAllows(l, Step(l, s, burst[0]).0, n - 1, first + 1, from, to);
    }
  }

  lemma RunCons(l: Limit, s: System, e: Event, es: seq<Event>, from: int, to: int)
    ensures Run(l, s, [e] + es) == Run(l, Step(l, s, e).0, es)
    ensures AllowedIn(l, s, [e] + es, from, to) ==
            (if Allows(l, s, e) && from <= s.now < to then 1 else 0) + AllowedIn(l, Step(l, s, e).0, es, from, to)
  {
    assert ([e] + es)[1..] == es;
  }

  /** For every limit there is a run that reaches the bound, so no smaller one holds. */
  lemma TwoWindowsReached(l: Limit) returns (es: seq<Event>)
    requires l.limit >= 1 && l.duration >= 1
    ensures AllowedIn(l, System(0, None, map[]), es, 1, 1 + Span(l)) == 2 * l.limit - 1
  {
    var from, to := 1, 1 + Span(l);
    var first, second := Burst(l.limit - 1, 1), Burst(l.limit, l.limit);
    var s0 := System(0, None, map[]);
    var s1 := Step(l, s0, DoIncr(0, 0)).0;
    var s2 := Step(l, s1, DoExpire(0)).0;
    var s3 := Step(l, s2, Tick(Span(l) - 1)).0;
    BurstAllows(l, s3, l.limit - 1, 1, from, to);
    var s4 := Run(l, s3, first);
    var s5 := Step(l, s4, Tick(1)).0;
    var s6 := Step(l, s5, Drop).0;
    BurstAllows(l, s6, l.limit, l.limit, from, to);
    RunCons(l, s5, Drop, second, from, to);
    RunCons(l, s4, Tick(1), [Drop] + second, from, to);
    var tail := first + ([Tick(1)] + ([Drop] + second));
    RunAppend(l, s3, first, [Tick(1)] + ([Drop] + second), from, to);
    RunCons(l, s2, Tick(Span(l) - 1), tail, from, to);
    RunCons(l, s1, DoExpire(0), [Tick(Span(l) - 1)] + tail, from, to);
    es := [DoIncr(0, 0)] + ([DoExpire(0)] + ([Tick(Span(l) - 1)] + tail));
    RunCons(l, s0, DoIncr(0, 0), [DoExpire(0)] + ([Tick(Span(l) - 1)] + tail), from, to);
  }
}
