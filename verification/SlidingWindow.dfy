/**
 * The sliding-window rate limiter: a pruned sorted set with a TTL stands in for the full log of
 * admitted requests. Times are milliseconds: `now` on the caller's clock, which gives the scores, and
 * `at` on the server's, which gives the TTL.
 */
module SlidingWindows {
  import opened Wrappers
  import opened SessionTypes
  import opened SortedSet
  import opened RateLimits

  /** The sorted set of one key: members are unique request ids, scores are admission times. */
  datatype Window = Window(entries: map<Jti, int>, deadline: Option<int>)

  // ---------------------------------------------------------------- the two scripts

  function CeilSeconds(ms: int): int {
    (ms + 999) / 1000
  }

  /** ZREMRANGEBYSCORE key 0 upTo; Redis drops a key, and its TTL, with the last member. */
  function Prune(w: Window, upTo: int): Window {
    var kept := map m | m in w.entries && !(0 <= w.entries[m] <= upTo) :: w.entries[m];
    Window(kept, if kept == map[] then None else w.deadline)
  }

  function RetryHint(entries: map<Jti, int>, now: int, window: int): int {
    if entries == map[] then 0
    else Max(1, CeilSeconds(entries[Least(entries, entries.Keys)] + window - now))
  }

  /** ZADD key now member, PEXPIRE key window; a TTL that is not positive deletes the key. */
  function Record(w: Window, now: int, at: int, window: int, member: Jti): Window {
    if window <= 0 then Window(map[], None) else Window(w.entries[member := now], Some(at + window))
  }

  function Denied(entries: map<Jti, int>, l: Limit, now: int): Answer {
    var retryAfter := RetryHint(entries, now, l.Millis());
    Answer(false, l.limit, |entries|, 0, now + retryAfter * 1000, retryAfter)
  }

  function Consume(w: Window, l: Limit, now: int, at: int, member: Jti): (Window, Answer) {
    var pruned := Prune(w, now - l.Millis());
    var count := |pruned.entries|;
    if count >= l.limit then (pruned, Denied(pruned.entries, l, now))
    else (Record(pruned, now, at, l.Millis(), member),
          Answer(true, l.limit, count + 1, l.limit - count - 1, now, 0))
  }

  function Check(w: Window, l: Limit, now: int): (Window, Answer) {
    var pruned := Prune(w, now - l.Millis());
    var count := |pruned.entries|;
    var retryAfter := if count >= l.limit then RetryHint(pruned.entries, now, l.Millis()) else 0;
    (pruned, Answer(count < l.limit, l.limit, count, Max(0, l.limit - count), now + retryAfter * 1000, retryAfter))
  }

  /** The scripts, and the calls around them, statement by statement. */
  class SlidingKey {
    var entries: map<Jti, int>
    var deadline: Option<int>

    function State(): Window
      reads this
    {
      Window(entries, deadline)
    }

    constructor ()
      ensures State() == Window(map[], None)
    {
      entries, deadline := map[], None;
    }

    method RemoveUpTo(upTo: int)
      modifies this
      ensures State() == Prune(old(State()), upTo)
    {
      entries := map m | m in entries && !(0 <= entries[m] <= upTo) :: entries[m];
      if |entries| == 0 {
        deadline := None;
      }
    }

    method HintFromOldest(now: int, window: int) returns (retryAfter: int)
      ensures retryAfter == RetryHint(entries, now, window)
    {
      retryAfter := 0;
      if entries != map[] {
        var oldest := entries[Least(entries, entries.Keys)];
        retryAfter := Max(1, CeilSeconds(oldest + window - now));
      }
    }

    method Expire(at: int, window: int)
      modifies this
      ensures State() == if window <= 0 then Window(map[], None) else Window(old(entries), Some(at + window))
    {
      if window <= 0 {
        entries, deadline := map[], None;
      } else {
        deadline := Some(at + window);
      }
    }

    method ConsumeSliding(l: Limit, now: int, at: int, member: Jti) returns (answer: Answer)
      modifies this
      ensures (State(), answer) == Consume(old(State()), l, now, at, member)
    {
      var window := l.duration * 1000;
      RemoveUpTo(now - window);
      var count := |entries|;
      if count >= l.limit {
        var retryAfter := HintFromOldest(now, window);
        return Answer(false, l.limit, count, 0, now + retryAfter * 1000, retryAfter);
      }
      entries := entries[member := now];
      Expire(at, window);
      return Answer(true, l.limit, count + 1, l.limit - count - 1, now, 0);
    }

    method CheckSliding(l: Limit, now: int) returns (answer: Answer)
      modifies this
      ensures (State(), answer) == Check(old(State()), l, now)
    {
      var window := l.duration * 1000;
      RemoveUpTo(now - window);
      var count := |entries|;
      var retryAfter := 0;
      if count >= l.limit {
        retryAfter := HintFromOldest(now, window);
      }
      return Answer(count < l.limit, l.limit, count, Max(0, l.limit - count), now + retryAfter * 1000, retryAfter);
    }
  }

  // ---------------------------------------------------------------- runs, and the log they stand for

  datatype Event =
    | Consuming(now: int, at: int, member: Jti)
    | Checking(now: int, at: int)
    | Expiring(at: int)

  /** The log keeps every request ever admitted. */
  datatype Limiter = Limiter(window: Window, log: map<Jti, int>, at: int)

  const IDLE := Limiter(Window(map[], None), map[], 0)

  /** Redis drops the key at its deadline or later. */
  function Drop(w: Window, at: int): Window {
    if w.deadline.Some? && w.deadline.value <= at then Window(map[], None) else w
  }

  function Step(l: Limit, s: Limiter, e: Event): Limiter {
    match e
    case Consuming(now, at, member) =>
      var (w, answer) := Consume(s.window, l, now, at, member);
      Limiter(w, if answer.allowed then s.log[member := now] else s.log, at)
    case Checking(now, at) => Limiter(Check(s.window, l, now).0, s.log, at)
    case Expiring(at) => Limiter(Drop(s.window, at), s.log, at)
  }

  function Run(l: Limit, s: Limiter, es: seq<Event>): Limiter
    decreases |es|
  {
    if es == [] then s else Run(l, Step(l, s, es[0]), es[1..])
  }

  /** The server's clock does not go back, no caller's is further than `d` from it, no request id is used twice. */
  predicate Timed(d: nat, at: int, used: set<Jti>, es: seq<Event>)
    decreases |es|
  {
    es == [] ||
    (&& at <= es[0].at && Near(d, es[0])
     && (es[0].Consuming? ==> es[0].member !in used)
     && Timed(d, es[0].at, Used(used, es[0]), es[1..]))
  }

  predicate Near(d: nat, e: Event) {
    e.Expiring? || (0 <= e.now && e.at - d <= e.now <= e.at + d)
  }

  /** All clocks agree. */
  predicate Orderly(at: int, used: set<Jti>, es: seq<Event>) {
    Timed(0, at, used, es)
  }

  function Used(used: set<Jti>, e: Event): set<Jti> {
    if e.Consuming? then used + {e.member} else used
  }

  // ---------------------------------------------------------------- the limiter on the log alone

  /** The logged requests that a window ending at `now` still counts. */
  function Recent(log: map<Jti, int>, now: int, window: int): map<Jti, int> {
    map m | m in log && log[m] > now - window :: log[m]
  }

  function LogConsume(l: Limit, log: map<Jti, int>, now: int): Answer {
    var recent := Recent(log, now, l.Millis());
    if |recent| < l.limit then Answer(true, l.limit, |recent| + 1, l.limit - |recent| - 1, now, 0)
    else Denied(recent, l, now)
  }

  /** The answers of the consumes of a run, from the log alone: checks and expiries do nothing. */
  function LogAnswers(l: Limit, log: map<Jti, int>, es: seq<Event>): seq<Answer>
    decreases |es|
  {
    if es == [] then []
    else if !es[0].Consuming? then LogAnswers(l, log, es[1..])
    else
      var answer := LogConsume(l, log, es[0].now);
      [answer] + LogAnswers(l, if answer.allowed then log[es[0].member := es[0].now] else log, es[1..])
  }

  /** The answers that the scripts give to the consumes of a run. */
  function Answers(l: Limit, s: Limiter, es: seq<Event>): seq<Answer>
    decreases |es|
  {
    if es == [] then []
    else
      (if es[0].Consuming? then [Consume(s.window, l, es[0].now, es[0].at, es[0].member).1] else [])
      + Answers(l, Step(l, s, es[0]), es[1..])
  }

  /** The set holds every logged request that any caller still counts, and nothing that was not logged. */
  predicate Tracks(l: Limit, d: nat, s: Limiter) {
    && (forall m | m in s.log :: 0 <= s.log[m] <= s.at + d)
    && (forall m | m in s.window.entries :: m in s.log && s.window.entries[m] == s.log[m])
    && (forall m | m in s.log && s.log[m] > s.at + d - l.Millis() :: m in s.window.entries)
    && (s.window.deadline.Some? ==> forall m | m in s.log :: s.log[m] + l.Millis() <= s.window.deadline.value + d)
  }

  /** With agreeing clocks, pruning leaves exactly the log restricted to the window. */
  lemma PruneTracks(l: Limit, s: Limiter, now: int)
    requires Tracks(l, 0, s) && s.at <= now
    ensures Prune(s.window, now - l.Millis()).entries == Recent(s.log, now, l.Millis())
  {
  }

  lemma TracksStep(l: Limit, d: nat, s: Limiter, e: Event)
    requires Tracks(l, d, s) && 0 <= s.at <= e.at && Near(d, e) && (e.Consuming? ==> e.member !in s.log)
    ensures Tracks(l, d, Step(l, s, e))
  {
  }

  lemma {:induction false} RunTracks(l: Limit, d: nat, s: Limiter, used: set<Jti>, es: seq<Event>)
    requires Tracks(l, d, s) && 0 <= s.at && s.log.Keys <= used && Timed(d, s.at, used, es)
    ensures Tracks(l, d, Run(l, s, es)) && s.at <= Run(l, s, es).at
    decreases |es|
  {
    if es != [] {
      TracksStep(l, d, s, es[0]);
      RunTracks(l, d, Step(l, s, es[0]), Used(used, es[0]), es[1..]);
    }
  }

  lemma AnswerFromLog(l: Limit, s: Limiter, e: Event)
    requires Tracks(l, 0, s) && 0 <= s.at <= e.at && e.Consuming? && Near(0, e)
    ensures Consume(s.window, l, e.now, e.at, e.member).1 == LogConsume(l, s.log, e.now)
  {
    PruneTracks(l, s, e.now);
  }

  lemma {:induction false} AnswersFromLog(l: Limit, s: Limiter, used: set<Jti>, es: seq<Event>)
    requires Tracks(l, 0, s) && 0 <= s.at && s.log.Keys <= used && Orderly(s.at, used, es)
    ensures Answers(l, s, es) == LogAnswers(l, s.log, es)
    decreases |es|
  {
    if es != [] {
      TracksStep(l, 0, s, es[0]);
      if es[0].Consuming? {
        AnswerFromLog(l, s, es[0]);
      }
      AnswersFromLog(l, Step(l, s, es[0]), Used(used, es[0]), es[1..]);
    }
  }

  // ---------------------------------------------------------------- checks and expiries change no answer

  function ConsumesOf(es: seq<Event>): seq<Event> {
    if es == [] then [] else (if es[0].Consuming? then [es[0]] else []) + ConsumesOf(es[1..])
  }

  lemma {:induction false} TimedConsumes(d: nat, at: int, earlier: int, used: set<Jti>, es: seq<Event>)
    requires Timed(d, at, used, es) && earlier <= at
    ensures Timed(d, earlier, used, ConsumesOf(es))
    decreases |es|
  {
    if es != [] {
      if es[0].Consuming? {
        TimedConsumes(d, es[0].at, es[0].at, Used(used, es[0]), es[1..]);
        assert ConsumesOf(es)[1..] == ConsumesOf(es[1..]);
      } else {
        TimedConsumes(d, es[0].at, earlier, used, es[1..]);
        assert ConsumesOf(es) == ConsumesOf(es[1..]);
      }
    }
  }

  lemma {:induction false} LogAnswersOfConsumes(l: Limit, log: map<Jti, int>, es: seq<Event>)
    ensures LogAnswers(l, log, es) == LogAnswers(l, log, ConsumesOf(es))
    decreases |es|
  {
    if es != [] {
      if es[0].Consuming? {
        var answer := LogConsume(l, log, es[0].now);
        LogAnswersOfConsumes(l, if answer.allowed then log[es[0].member := es[0].now] else log, es[1..]);
        assert ConsumesOf(es)[1..] == ConsumesOf(es[1..]);
      } else {
        LogAnswersOfConsumes(l, log, es[1..]);
        assert ConsumesOf(es) == ConsumesOf(es[1..]);
      }
    }
  }

  /**
   * Whatever checks and TTL expiries a run contains, its consumes get the answers of the full log, which
   * are those of the same run without the checks and the expiries.
   */
  lemma OnlyConsumesMatter(l: Limit, es: seq<Event>)
    requires Orderly(0, {}, es)
    ensures Answers(l, IDLE, es) == LogAnswers(l, map[], es) == Answers(l, IDLE, ConsumesOf(es))
  {
    AnswersFromLog(l, IDLE, {}, es);
    TimedConsumes(0, 0, 0, {}, es);
    AnswersFromLog(l, IDLE, {}, ConsumesOf(es));
    LogAnswersOfConsumes(l, map[], es);
  }

  // ---------------------------------------------------------------- the limit holds in every window

  function Within(log: map<Jti, int>, after: int, upTo: int): set<Jti> {
    set m | m in log && after < log[m] <= upTo
  }

  /** The part of a window on which all callers agree, whatever their clocks: both ends give way by `d`. */
  function Agreed(l: Limit, d: nat): int {
    l.Millis() - 2 * d
  }

  /** An admitted request joins fewer than `limit` others in any agreed window that reaches it. */
  lemma AdmittedFits(l: Limit, d: nat, s: Limiter, now: int, at: int, member: Jti, t: int)
    requires Tracks(l, d, s) && s.at <= at && at - d <= now <= at + d
    requires |Prune(s.window, now - l.Millis()).entries| < l.limit && t - Agreed(l, d) < now <= t
    ensures |Within(s.log[member := now], t - Agreed(l, d), t)| <= l.limit
  {
    var pruned := Prune(s.window, now - l.Millis()).entries;
    SubsetSize(Within(s.log[member := now], t - Agreed(l, d), t), pruned.Keys + {member});
  }

  lemma WindowStep(l: Limit, d: nat, s: Limiter, e: Event, t: int)
    requires Tracks(l, d, s) && 0 <= s.at <= e.at && Near(d, e) && (e.Consuming? ==> e.member !in s.log)
    requires |Within(s.log, t - Agreed(l, d), t)| <= Max(0, l.limit)
    ensures |Within(Step(l, s, e).log, t - Agreed(l, d), t)| <= Max(0, l.limit)
  {
    if e.Consuming? && |Prune(s.window, e.now - l.Millis()).entries| < l.limit {
      if t - Agreed(l, d) < e.now <= t {
        AdmittedFits(l, d, s, e.now, e.at, e.member, t);
      } else {
        assert Within(s.log[e.member := e.now], t - Agreed(l, d), t) == Within(s.log, t - Agreed(l, d), t);
      }
    }
  }

  lemma {:induction false} WindowFrom(l: Limit, d: nat, s: Limiter, used: set<Jti>, es: seq<Event>, t: int)
    requires Tracks(l, d, s) && 0 <= s.at && s.log.Keys <= used && Timed(d, s.at, used, es)
    requires |Within(s.log, t - Agreed(l, d), t)| <= Max(0, l.limit)
    ensures |Within(Run(l, s, es).log, t - Agreed(l, d), t)| <= Max(0, l.limit)
    decreases |es|
  {
    if es != [] {
      TracksStep(l, d, s, es[0]);
      WindowStep(l, d, s, es[0], t);
      WindowFrom(l, d, Step(l, s, es[0]), Used(used, es[0]), es[1..], t);
    }
  }

  /**
   * With callers whose clocks are within `d` of the server's, no interval of length window - 2d, wherever
   * it ends, holds more than `limit` admitted requests.
   */
  lemma SkewedWindowHolds(l: Limit, d: nat, es: seq<Event>, t: int)
    requires Timed(d, 0, {}, es)
    ensures |Within(Run(l, IDLE, es).log, t - Agreed(l, d), t)| <= Max(0, l.limit)
  {
    assert Within(IDLE.log, t - Agreed(l, d), t) == {};
    WindowFrom(l, d, IDLE, {}, es, t);
  }

  /** A window of the configured length, ending at t. */
  function FullWindow(l: Limit, log: map<Jti, int>, t: int): set<Jti> {
    Within(log, t - l.Millis(), t)
  }

  /** With agreeing clocks, no window of the configured length holds more than `limit` admitted requests. */
  lemma WindowHolds(l: Limit, es: seq<Event>, t: int)
    requires Orderly(0, {}, es)
    ensures |FullWindow(l, Run(l, IDLE, es).log, t)| <= Max(0, l.limit)
  {
    SkewedWindowHolds(l, 0, es, t);
  }

  // ---------------------------------------------------------------- no longer interval holds it

  /** n requests at one moment, by a caller whose clock is `d` ahead. */
  function Burst(n: nat, d: nat): seq<Event> {
    seq(n, i requires 0 <= i < n => Consuming(d, 0, i))
  }

  /** A burst up to the limit; then the key's TTL runs out, and a caller whose clock is `d` behind comes next. */
  function Overrun(l: Limit, d: nat): seq<Event>
    requires l.limit >= 0
  {
    Burst(l.limit, d) + [Expiring(l.Millis())] + [LastRequest(l, d)]
  }

  function LastRequest(l: Limit, d: nat): Event
    requires l.limit >= 0
  {
    Consuming(l.Millis() - d, l.Millis(), l.limit)
  }

  function Stamped(n: nat, now: int): (log: map<Jti, int>)
    ensures forall i: Jti :: i in log <==> i < n
    ensures forall i | i in log :: log[i] == now
    ensures |log| == n
  {
    if n == 0 then map[] else Stamped(n - 1, now)[n - 1 := now]
  }

  /** The key after n requests of the burst. */
  function Filled(l: Limit, n: nat, d: nat): Limiter {
    Limiter(Window(Stamped(n, d), if n == 0 then None else Some(l.Millis())), Stamped(n, d), 0)
  }

  lemma {:induction false} RunLast(l: Limit, s: Limiter, es: seq<Event>, e: Event)
    ensures Run(l, s, es + [e]) == Step(l, Run(l, s, es), e)
    decreases |es|
  {
    if es == [] {
      assert [] + [e] == [e] && [e][1..] == [];
    } else {
      assert (es + [e])[0] == es[0] && (es + [e])[1..] == es[1..] + [e];
      RunLast(l, Step(l, s, es[0]), es[1..], e);
    }
  }

  lemma {:induction false} TimedLast(d: nat, at: int, used: set<Jti>, es: seq<Event>, e: Event)
    requires Timed(d, at, used, es) && Near(d, e) && at <= e.at && forall i | 0 <= i < |es| :: es[i].at <= e.at
    requires e.Consuming? ==>
      e.member !in used && forall i | 0 <= i < |es| && es[i].Consuming? :: es[i].member != e.member
    ensures Timed(d, at, used, es + [e])
    decreases |es|
  {
    if es == [] {
      assert [] + [e] == [e] && [e][1..] == [];
    } else {
      assert (es + [e])[0] == es[0] && (es + [e])[1..] == es[1..] + [e];
      TimedLast(d, es[0].at, Used(used, es[0]), es[1..], e);
    }
  }

  lemma BurstGrows(n: nat, d: nat)
    requires n > 0
    ensures Burst(n, d) == Burst(n - 1, d) + [Consuming(d, 0, n - 1)]
  {
  }

  lemma {:induction false} BurstTimed(d: nat, n: nat)
    ensures Timed(d, 0, {}, Burst(n, d))
  {
    if n > 0 {
      BurstTimed(d, n - 1);
      TimedLast(d, 0, {}, Burst(n - 1, d), Consuming(d, 0, n - 1));
      BurstGrows(n, d);
    }
  }

  lemma OverrunTimed(l: Limit, d: nat)
    requires l.limit >= 1 && 2 * d <= l.Millis()
    ensures Timed(d, 0, {}, Overrun(l, d))
  {
    var es, expiry := Burst(l.limit, d), Expiring(l.Millis());
    BurstTimed(d, l.limit);
    TimedLast(d, 0, {}, es, expiry);
    TimedLast(d, 0, {}, es + [expiry], LastRequest(l, d));
  }

  lemma BurstPrunesNothing(l: Limit, d: nat, n: nat)
    requires l.Millis() >= 1
    ensures Prune(Filled(l, n, d).window, d - l.Millis()) == Filled(l, n, d).window
  {
    assert Prune(Filled(l, n, d).window, d - l.Millis()).entries == Stamped(n, d);
  }

  lemma AdmitsOne(l: Limit, s: Limiter, now: int, at: int, member: Jti)
    requires Prune(s.window, now - l.Millis()) == s.window && |s.window.entries| < l.limit && l.Millis() >= 1
    ensures Step(l, s, Consuming(now, at, member)) ==
            Limiter(Window(s.window.entries[member := now], Some(at + l.Millis())), s.log[member := now], at)
  {
  }

  lemma BurstAdmitsOne(l: Limit, d: nat, n: nat)
    requires 1 <= n <= l.limit && l.Millis() >= 1
    ensures Step(l, Filled(l, n - 1, d), Consuming(d, 0, n - 1)) == Filled(l, n, d)
  {
    BurstPrunesNothing(l, d, n - 1);
    AdmitsOne(l, Filled(l, n - 1, d), d, 0, n - 1);
  }

  lemma RunReaches(l: Limit, es: seq<Event>, e: Event, s: Limiter, s': Limiter)
    requires Run(l, IDLE, es) == s && Step(l, s, e) == s'
    ensures Run(l, IDLE, es + [e]) == s'
  {
    RunLast(l, IDLE, es, e);
  }

  lemma {:induction false} BurstFills(l: Limit, d: nat, n: nat)
    requires n <= l.limit && l.Millis() >= 1
    ensures Run(l, IDLE, Burst(n, d)) == Filled(l, n, d)
  {
    if n == 0 {
      assert Burst(0, d) == [];
    } else {
      BurstFills(l, d, n - 1);
      BurstAdmitsOne(l, d, n);
      BurstGrows(n, d);
      RunReaches(l, Burst(n - 1, d), Consuming(d, 0, n - 1), Filled(l, n - 1, d), Filled(l, n, d));
    }
  }

  function OverrunLog(l: Limit, d: nat): map<Jti, int>
    requires l.limit >= 0
  {
    Stamped(l.limit, d)[l.limit := l.Millis() - d]
  }

  /** The key after its TTL has run out. */
  function Emptied(l: Limit, d: nat): Limiter
    requires l.limit >= 0
  {
    Limiter(Window(map[], None), Stamped(l.limit, d), l.Millis())
  }

  lemma ExpiryEmpties(l: Limit, d: nat)
    requires l.limit >= 1
    ensures Step(l, Filled(l, l.limit, d), Expiring(l.Millis())) == Emptied(l, d)
  {
  }

  lemma EmptyAdmits(l: Limit, d: nat)
    requires l.limit >= 1
    ensures Step(l, Emptied(l, d), LastRequest(l, d)).log == OverrunLog(l, d)
  {
    assert Prune(Emptied(l, d).window, l.Millis() - d - l.Millis()) == Window(map[], None);
  }

  lemma OverrunAdmits(l: Limit, d: nat)
    requires l.limit >= 1 && l.Millis() >= 1
    ensures Run(l, IDLE, Overrun(l, d)).log == OverrunLog(l, d)
  {
    BurstFills(l, d, l.limit);
    ExpiryEmpties(l, d);
    EmptyAdmits(l, d);
    RunReaches(l, Burst(l.limit, d), Expiring(l.Millis()), Filled(l, l.limit, d), Emptied(l, d));
    RunReaches(l, Burst(l.limit, d) + [Expiring(l.Millis())], LastRequest(l, d), Emptied(l, d),
               Step(l, Emptied(l, d), LastRequest(l, d)));
  }

  /** The interval that is one millisecond too long. */
  function TooLong(l: Limit, d: nat, log: map<Jti, int>, t: int): set<Jti> {
    Within(log, t - (Agreed(l, d) + 1), t)
  }

  lemma OverrunCounts(l: Limit, d: nat, log: map<Jti, int>)
    requires l.limit >= 1 && 2 * d <= l.Millis() && log == OverrunLog(l, d)
    ensures |TooLong(l, d, log, l.Millis() - d)| == l.limit + 1
  {
    assert TooLong(l, d, log, l.Millis() - d) == Stamped(l.limit, d).Keys + {l.limit};
  }

  /** For every limit and every skew up to half a window, one millisecond more can hold one request too many. */
  lemma SkewedWindowIsTight(l: Limit, d: nat)
    requires l.limit >= 1 && l.Millis() >= 1 && 2 * d <= l.Millis()
    ensures Timed(d, 0, {}, Overrun(l, d))
    ensures |TooLong(l, d, Run(l, IDLE, Overrun(l, d)).log, l.Millis() - d)| == l.limit + 1
  {
    OverrunTimed(l, d);
    OverrunAdmits(l, d);
    OverrunCounts(l, d, Run(l, IDLE, Overrun(l, d)).log);
  }

  lemma {:induction false} TimedWider(d: nat, wider: nat, at: int, used: set<Jti>, es: seq<Event>)
    requires Timed(d, at, used, es) && d <= wider
    ensures Timed(wider, at, used, es)
    decreases |es|
  {
    if es != [] {
      TimedWider(d, wider, es[0].at, Used(used, es[0]), es[1..]);
    }
  }

  lemma FullWindowIsLonger(l: Limit, d: nat, log: map<Jti, int>, t: int)
    requires d >= 1 && |TooLong(l, d, log, t)| == l.limit + 1
    ensures |FullWindow(l, log, t)| > l.limit
  {
    SubsetSize(TooLong(l, d, log, t), FullWindow(l, log, t));
  }

  /**
   * For every limit, every duration and every allowed skew of a millisecond or more, a full window can be
   * overrun: by callers with any skew `d` from one millisecond to half a window.
   */
  lemma SkewOverruns(l: Limit, d: nat, allowed: nat)
    requires l.limit >= 1 && 1 <= d <= allowed && 2 * d <= l.Millis()
    ensures Timed(allowed, 0, {}, Overrun(l, d))
    ensures |FullWindow(l, Run(l, IDLE, Overrun(l, d)).log, l.Millis() - d)| > l.limit
  {
    OverrunTimed(l, d);
    TimedWider(d, allowed, 0, {}, Overrun(l, d));
    OverrunAdmits(l, d);
    OverrunFillsWindow(l, d, Run(l, IDLE, Overrun(l, d)).log);
  }

  lemma OverrunFillsWindow(l: Limit, d: nat, log: map<Jti, int>)
    requires l.limit >= 1 && 1 <= d && 2 * d <= l.Millis() && log == OverrunLog(l, d)
    ensures |FullWindow(l, log, l.Millis() - d)| > l.limit
  {
    OverrunCounts(l, d, log);
    FullWindowIsLonger(l, d, log, l.Millis() - d);
  }

  // ---------------------------------------------------------------- the retry hint

  /** A check at the same instant foretells the consume: same verdict, same hint. */
  lemma CheckForetells(w: Window, l: Limit, now: int, at: int, member: Jti)
    ensures var (_, check) := Check(w, l, now); var (_, consume) := Consume(w, l, now, at, member);
      check.allowed == consume.allowed && check.retryAfter == consume.retryAfter
  {
  }

  /** With a full window, a later consume succeeds exactly when the oldest request has left it. */
  lemma FullUntilOldestLeaves(log: map<Jti, int>, now: int, window: int, later: int)
    requires now <= later && Recent(log, now, window) != map[]
    ensures var recent := Recent(log, now, window);
      |Recent(log, later, window)| < |recent| <==> recent[Least(recent, recent.Keys)] + window <= later
  {
    var recent := Recent(log, now, window);
    var least := Least(recent, recent.Keys);
    var still := Recent(log, later, window);
    SubsetSize(still.Keys, recent.Keys);
    if recent[least] + window <= later {
      SubsetSize(still.Keys, recent.Keys - {least});
    } else {
      assert still == recent;
    }
  }

  lemma CeilIsLeast(ms: int, k: int)
    ensures CeilSeconds(ms) <= k <==> ms <= 1000 * k
  {
  }

  /** When the oldest counted request leaves the window. */
  function OldestExit(l: Limit, log: map<Jti, int>, now: int): int
    requires Recent(log, now, l.Millis()) != map[]
  {
    var recent := Recent(log, now, l.Millis());
    recent[Least(recent, recent.Keys)] + l.Millis()
  }

  lemma DenialHint(l: Limit, s: Limiter, now: int, member: Jti, k: int)
    requires Tracks(l, 0, s) && s.at <= now && l.limit >= 1
    requires !Consume(s.window, l, now, now, member).1.allowed
    ensures Recent(s.log, now, l.Millis()) != map[]
    ensures Consume(s.window, l, now, now, member).1.retryAfter <= k <==> OldestExit(l, s.log, now) <= now + 1000 * k
  {
    PruneTracks(l, s, now);
    CeilIsLeast(OldestExit(l, s.log, now) - now, k);
  }

  lemma RetryVerdict(l: Limit, s: Limiter, now: int, late: Limiter, later: int, again: Jti)
    requires Tracks(l, 0, late) && late.log == s.log && now <= later && late.at <= later
    requires |Recent(s.log, now, l.Millis())| == l.limit >= 1
    ensures Recent(s.log, now, l.Millis()) != map[]
    ensures Consume(late.window, l, later, later, again).1.allowed <==> OldestExit(l, s.log, now) <= later
  {
    PruneTracks(l, late, later);
    FullUntilOldestLeaves(s.log, now, l.Millis(), later);
  }

  /** What a client can rely on after a denial at `now`, while nothing else is admitted. */
  predicate Quiet(l: Limit, s: Limiter, now: int, member: Jti, quiet: seq<Event>, later: int) {
    var denied := Step(l, s, Consuming(now, now, member));
    && Orderly(now, s.log.Keys, quiet)
    && Run(l, denied, quiet).log == s.log
    && Run(l, denied, quiet).at <= later
  }

  lemma DenialMeansFull(l: Limit, s: Limiter, now: int, member: Jti)
    requires Tracks(l, 0, s) && s.at <= now && l.limit >= 1
    requires |FullWindow(l, s.log, now)| <= l.limit
    requires !Consume(s.window, l, now, now, member).1.allowed
    ensures |Recent(s.log, now, l.Millis())| == l.limit
  {
    PruneTracks(l, s, now);
    assert FullWindow(l, s.log, now) == Recent(s.log, now, l.Millis()).Keys;
  }

  lemma QuietTracks(l: Limit, s: Limiter, now: int, member: Jti, quiet: seq<Event>, later: int)
    requires Tracks(l, 0, s) && 0 <= s.at <= now
    requires !Consume(s.window, l, now, now, member).1.allowed
    requires Quiet(l, s, now, member, quiet, later)
    ensures Tracks(l, 0, Run(l, Step(l, s, Consuming(now, now, member)), quiet))
  {
    var denied := Step(l, s, Consuming(now, now, member));
    assert denied.log == s.log && denied.at == now;
    PruneTracks(l, s, now);
    RunTracks(l, 0, denied, s.log.Keys, quiet);
  }

  /**
   * A denied request that is tried again while nothing was admitted is admitted exactly once the oldest
   * counted request has left the window; after whole seconds, exactly from the hinted one on.
   */
  lemma RetryHintIsExact(l: Limit, es: seq<Event>, now: int, member: Jti, quiet: seq<Event>, later: int, again: Jti,
                         k: int)
    requires l.limit >= 1 && Orderly(0, {}, es) && Run(l, IDLE, es).at <= now <= later
    requires !Consume(Run(l, IDLE, es).window, l, now, now, member).1.allowed
    requires Quiet(l, Run(l, IDLE, es), now, member, quiet, later)
    ensures var s := Run(l, IDLE, es);
      var retry := Consume(Run(l, Step(l, s, Consuming(now, now, member)), quiet).window, l, later, later, again).1;
      && Recent(s.log, now, l.Millis()) != map[]
      && (retry.allowed <==> OldestExit(l, s.log, now) <= later)
      && (later == now + 1000 * k ==>
            (retry.allowed <==> Consume(s.window, l, now, now, member).1.retryAfter <= k))
  {
    var s := Run(l, IDLE, es);
    var late := Run(l, Step(l, s, Consuming(now, now, member)), quiet);
    RunTracks(l, 0, IDLE, {}, es);
    WindowHolds(l, es, now);
    DenialMeansFull(l, s, now, member);
    QuietTracks(l, s, now, member, quiet, later);
    DenialHint(l, s, now, member, k);
    RetryVerdict(l, s, now, late, later, again);
  }

  // ---------------------------------------------------------------- what the answers say

  /** With agreeing clocks the log has nothing after now, so a full window is what is recent. */
  lemma WindowIsRecent(l: Limit, s: Limiter, now: int)
    requires Tracks(l, 0, s) && s.at <= now
    ensures |Prune(s.window, now - l.Millis()).entries| == |FullWindow(l, s.log, now)|
  {
    PruneTracks(l, s, now);
    assert FullWindow(l, s.log, now) == Recent(s.log, now, l.Millis()).Keys;
  }

  /** What the fields of an answer to a consume mean, `n` requests being counted in the window. */
  predicate SaysConsumed(l: Limit, n: nat, now: int, answer: Answer) {
    && answer.limit == l.limit && (answer.allowed <==> n < l.limit)
    && answer.used == n + (if answer.allowed then 1 else 0)
    && answer.remaining == Max(0, l.limit - answer.used)
    && answer.resetAt == now + 1000 * answer.retryAfter
    && (answer.allowed || l.limit <= 0 ==> answer.retryAfter == 0)
  }

  lemma ConsumeSays(l: Limit, s: Limiter, now: int, member: Jti)
    requires |Prune(s.window, now - l.Millis()).entries| <= Max(0, l.limit)
    ensures SaysConsumed(l, |Prune(s.window, now - l.Millis()).entries|, now,
                         Consume(s.window, l, now, now, member).1)
  {
  }

  /** The hint of a denial points at the exit of the oldest request, rounded up to a whole second. */
  lemma HintRoundsUp(l: Limit, s: Limiter, now: int, member: Jti)
    requires Tracks(l, 0, s) && s.at <= now && l.limit >= 1
    requires !Consume(s.window, l, now, now, member).1.allowed
    ensures Recent(s.log, now, l.Millis()) != map[]
    ensures var hint := Consume(s.window, l, now, now, member).1.retryAfter;
      now + 1000 * hint - 1000 < OldestExit(l, s.log, now) <= now + 1000 * hint
  {
    var hint := Consume(s.window, l, now, now, member).1.retryAfter;
    DenialHint(l, s, now, member, hint);
    DenialHint(l, s, now, member, hint - 1);
  }

  /**
   * After any run with agreeing clocks, an answer counts the requests admitted in the window that ends now,
   * this one included, says how many more fit, and when denied points at the exit of the oldest.
   */
  lemma AnswerSaysLog(l: Limit, es: seq<Event>, now: int, member: Jti)
    requires Orderly(0, {}, es) && Run(l, IDLE, es).at <= now
    ensures var s := Run(l, IDLE, es);
      var answer := Consume(s.window, l, now, now, member).1;
      && SaysConsumed(l, |FullWindow(l, s.log, now)|, now, answer)
      && (!answer.allowed && l.limit >= 1 ==>
            && Recent(s.log, now, l.Millis()) != map[]
            && answer.resetAt - 1000 < OldestExit(l, s.log, now) <= answer.resetAt)
  {
    var s := Run(l, IDLE, es);
    RunTracks(l, 0, IDLE, {}, es);
    WindowHolds(l, es, now);
    WindowIsRecent(l, s, now);
    ConsumeSays(l, s, now, member);
    if l.limit >= 1 && !Consume(s.window, l, now, now, member).1.allowed {
      HintRoundsUp(l, s, now, member);
    }
  }

  predicate SaysChecked(l: Limit, n: nat, now: int, check: Answer) {
    && check.limit == l.limit && (check.allowed <==> n < l.limit)
    && check.used == n && check.remaining == Max(0, l.limit - n)
    && check.resetAt == now + 1000 * check.retryAfter
  }

  lemma CheckSays(l: Limit, s: Limiter, now: int)
    ensures SaysChecked(l, |Prune(s.window, now - l.Millis()).entries|, now, Check(s.window, l, now).1)
  {
  }

  /** A check counts the same window, without a request of its own; its hint is that of a consume. */
  lemma CheckSaysLog(l: Limit, es: seq<Event>, now: int)
    requires Orderly(0, {}, es) && Run(l, IDLE, es).at <= now
    ensures var s := Run(l, IDLE, es); SaysChecked(l, |FullWindow(l, s.log, now)|, now, Check(s.window, l, now).1)
  {
    RunTracks(l, 0, IDLE, {}, es);
    WindowIsRecent(l, Run(l, IDLE, es), now);
    CheckSays(l, Run(l, IDLE, es), now);
  }
}
