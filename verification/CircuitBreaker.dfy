/** The circuit breaker in front of session storage. Times are milliseconds. */
module CircuitBreakers {
  import opened Wrappers

  datatype Settings = Settings(failureThreshold: nat, resetTimeoutMs: nat, halfOpenMaxRequests: nat)
  {
    /** The bounds that the configuration schema enforces. */
    predicate Valid() {
      failureThreshold >= 1 && resetTimeoutMs >= 1000 && halfOpenMaxRequests >= 1
    }
  }

  type Config = c: Settings | c.Valid()
    witness Settings(10, 30000, 5)

  datatype Phase = Closed | Open | HalfOpen

  datatype Circuit = Circuit(phase: Phase, failures: nat, openedAt: int, inFlight: int, succeeded: nat)

  const FRESH := Circuit(Closed, 0, 0, 0, 0)

  // ---------------------------------------------------------------- the transitions

  function RollHalfOpen(cfg: Config, c: Circuit, now: int): Circuit {
    if c.phase == Open && now - c.openedAt >= cfg.resetTimeoutMs
    then c.(phase := HalfOpen, inFlight := 0, succeeded := 0)
    else c
  }

  function TransitionTo(c: Circuit, phase: Phase, now: int): Circuit {
    if c.phase == phase then c
    else
      match phase
      case Open => Circuit(Open, c.failures, now, 0, 0)
      case HalfOpen => Circuit(HalfOpen, c.failures, c.openedAt, 0, 0)
      case Closed => Circuit(Closed, 0, c.openedAt, 0, 0)
  }

  function TryAcquire(cfg: Config, c: Circuit, now: int): (Circuit, bool) {
    var r := RollHalfOpen(cfg, c, now);
    if r.phase == HalfOpen && r.inFlight < cfg.halfOpenMaxRequests then (r.(inFlight := r.inFlight + 1), true)
    else (r, r.phase == Closed)
  }

  function RecordSuccess(c: Circuit): Circuit {
    match c.phase
    case Closed => c.(failures := 0)
    case Open => c
    case HalfOpen =>
      var left := Max(0, c.inFlight - 1);
      var s := c.(inFlight := left, succeeded := c.succeeded + 1);
      if left == 0 then TransitionTo(s, Closed, 0) else s
  }

  function RecordFailure(cfg: Config, c: Circuit, now: int): Circuit {
    match c.phase
    case Closed =>
      var f := c.(failures := c.failures + 1);
      if f.failures >= cfg.failureThreshold then TransitionTo(f, Open, now) else f
    case Open => c
    case HalfOpen => TransitionTo(c, Open, now)
  }

  /** The breaker as the class keeps it, method by method. */
  class SessionCircuitBreaker {
    const config: Config
    var phase: Phase
    var failures: nat
    var openedAt: int
    var inFlight: int
    var succeeded: nat

    function State(): Circuit
      reads this
    {
      Circuit(phase, failures, openedAt, inFlight, succeeded)
    }

    constructor (config: Config)
      ensures this.config == config && State() == FRESH
    {
      this.config := config;
      phase, failures, openedAt, inFlight, succeeded := Closed, 0, 0, 0, 0;
    }

    method Roll(now: int)
      modifies this
      ensures State() == RollHalfOpen(config, old(State()), now)
    {
      if phase == Open && now - openedAt >= config.resetTimeoutMs {
        phase := HalfOpen;
        inFlight := 0;
        succeeded := 0;
      }
    }

    method Transition(to: Phase, now: int)
      modifies this
      ensures State() == TransitionTo(old(State()), to, now)
    {
      if phase == to {
        return;
      }
      phase := to;
      if to == Open {
        openedAt := now;
        inFlight := 0;
        succeeded := 0;
      }
      if to == HalfOpen {
        inFlight := 0;
        succeeded := 0;
      }
      if to == Closed {
        failures := 0;
        inFlight := 0;
        succeeded := 0;
      }
    }

    method Acquire(now: int) returns (admitted: bool)
      modifies this
      ensures (State(), admitted) == TryAcquire(config, old(State()), now)
    {
      Roll(now);
      if phase == Closed {
        return true;
      }
      if phase == HalfOpen {
        if inFlight >= config.halfOpenMaxRequests {
          return false;
        }
        inFlight := inFlight + 1;
        return true;
      }
      return false;
    }

    method Succeed(now: int)
      modifies this
      ensures State() == RecordSuccess(old(State()))
    {
      if phase == Closed {
        failures := 0;
        return;
      }
      if phase != HalfOpen {
        return;
      }
      inFlight := Max(0, inFlight - 1);
      succeeded := succeeded + 1;
      if inFlight == 0 && succeeded >= 1 {
        Transition(Closed, now);
      }
    }

    method Fail(now: int)
      modifies this
      ensures State() == RecordFailure(config, old(State()), now)
    {
      if phase == Closed {
        failures := failures + 1;
        if failures >= config.failureThreshold {
          Transition(Open, now);
        }
        return;
      }
      if phase == HalfOpen {
        inFlight := Max(0, inFlight - 1);
        Transition(Open, now);
      }
    }

    method Reset(now: int)
      modifies this
      ensures State() == TransitionTo(old(State()), Closed, now)
    {
      Transition(Closed, now);
    }
  }

  // ---------------------------------------------------------------- runs

  /** How a guarded call ends; only storage failures count against the breaker. */
  datatype Ending = Succeeded | StorageFailed | BusinessError

  datatype Event = Call(now: int) | Finish(ending: Ending, now: int) | ResetAt(now: int)

  function Step(cfg: Config, c: Circuit, e: Event): (Circuit, bool) {
    match e
    case Call(now) => TryAcquire(cfg, c, now)
    case Finish(ending, now) =>
      (match ending
       case Succeeded => RecordSuccess(c)
       case StorageFailed => RecordFailure(cfg, c, now)
       case BusinessError => c, false)
    case ResetAt(now) => (TransitionTo(c, Closed, now), false)
  }

  /** A clock that does not go back, and no administrator. */
  predicate Orderly(now: int, es: seq<Event>)
    decreases |es|
  {
    es == [] || (now <= es[0].now && !es[0].ResetAt? && Orderly(es[0].now, es[1..]))
  }

  predicate Opens(cfg: Config, c: Circuit, e: Event) {
    c.phase != Open && Step(cfg, c, e).0.phase == Open
  }

  // ---------------------------------------------------------------- time spent open

  /** Every admission and every opening of the run comes at `bound` or later. */
  predicate NothingBefore(cfg: Config, c: Circuit, es: seq<Event>, bound: int)
    decreases |es|
  {
    es == [] ||
    (&& (Step(cfg, c, es[0]).1 || Opens(cfg, c, es[0]) ==> es[0].now >= bound)
     && NothingBefore(cfg, Step(cfg, c, es[0]).0, es[1..], bound))
  }

  lemma {:induction false} QuietFrom(cfg: Config, c: Circuit, now: int, es: seq<Event>, bound: int)
    requires Orderly(now, es)
    requires now >= bound || (c.phase == Open && c.openedAt + cfg.resetTimeoutMs == bound)
    ensures NothingBefore(cfg, c, es, bound)
    decreases |es|
  {
    if es != [] {
      QuietFrom(cfg, Step(cfg, c, es[0]).0, es[0].now, es[1..], bound);
    }
  }

  /** After an opening no call is admitted, and the breaker does not open again, for resetTimeoutMs. */
  lemma OpenKeepsQuiet(cfg: Config, c: Circuit, e: Event, es: seq<Event>)
    requires Opens(cfg, c, e) && Orderly(e.now, es)
    ensures NothingBefore(cfg, Step(cfg, c, e).0, es, e.now + cfg.resetTimeoutMs)
  {
    QuietFrom(cfg, Step(cfg, c, e).0, e.now, es, e.now + cfg.resetTimeoutMs);
  }

  /** How often a run opens the breaker at times in [from, to]. */
  function Openings(cfg: Config, c: Circuit, es: seq<Event>, from: int, to: int): nat
    decreases |es|
  {
    if es == [] then 0
    else (if Opens(cfg, c, es[0]) && from <= es[0].now <= to then 1 else 0)
         + Openings(cfg, Step(cfg, c, es[0]).0, es[1..], from, to)
  }

  lemma OneMore(n: nat, r: nat, room: int)
    requires n * r <= room
    ensures (1 + n) * r <= room + r
  {
  }

  /** `low` is a time before which nothing counts: the window's start, now, or the end of the open time. */
  lemma {:induction false} OpeningsFrom(cfg: Config, c: Circuit, now: int, es: seq<Event>, from: int, to: int, low: int)
    requires Orderly(now, es)
    requires low <= from || low <= now || (c.phase == Open && low <= c.openedAt + cfg.resetTimeoutMs)
    ensures Openings(cfg, c, es, from, to) * cfg.resetTimeoutMs <= Max(0, to - low + cfg.resetTimeoutMs)
    decreases |es|
  {
    if es != [] {
      var e, c' := es[0], Step(cfg, c, es[0]).0;
      if Opens(cfg, c, e) && from <= e.now <= to {
        var low' := e.now + cfg.resetTimeoutMs;
        OpeningsFrom(cfg, c', e.now, es[1..], from, to, low');
        OneMore(Openings(cfg, c', es[1..], from, to), cfg.resetTimeoutMs, to - e.now);
      } else {
        OpeningsFrom(cfg, c', e.now, es[1..], from, to, low);
      }
    }
  }

  lemma MulGrows(a: nat, b: nat, r: nat)
    requires a >= b
    ensures a * r >= b * r
  {
  }

  lemma MulTwoMore(q: nat, r: nat)
    ensures (q + 2) * r == q * r + 2 * r
  {
  }

  lemma Quotient(n: nat, r: nat, span: nat)
    requires r > 0 && n * r <= span + r
    ensures n <= 1 + span / r
  {
    var q := span / r;
    assert span < q * r + r;
    MulTwoMore(q, r);
    if n >= q + 2 {
      MulGrows(n, q + 2, r);
    }
  }

  /** In any stretch of time of length `span` the breaker opens at most 1 + span / resetTimeoutMs times. */
  lemma OpeningsAreSpaced(cfg: Config, c: Circuit, now: int, es: seq<Event>, from: int, span: nat)
    requires Orderly(now, es)
    ensures Openings(cfg, c, es, from, from + span) <= 1 + span / cfg.resetTimeoutMs
  {
    OpeningsFrom(cfg, c, now, es, from, from + span, from);
    Quotient(Openings(cfg, c, es, from, from + span), cfg.resetTimeoutMs, span);
  }

  // ---------------------------------------------------------------- the failure streak and the probes

  /** The circuit, and the outcomes recorded since it last became closed, while it is closed. */
  datatype Traced = Traced(circuit: Circuit, outcomes: seq<bool>)

  function Trace(cfg: Config, t: Traced, e: Event): Traced {
    var c' := Step(cfg, t.circuit, e).0;
    Traced(c',
           if c'.phase != Closed || t.circuit.phase != Closed then []
           else if e.Finish? && !e.ending.BusinessError? then t.outcomes + [e.ending.Succeeded?]
           else t.outcomes)
  }

  function TraceAll(cfg: Config, t: Traced, es: seq<Event>): Traced
    decreases |es|
  {
    if es == [] then t else TraceAll(cfg, Trace(cfg, t, es[0]), es[1..])
  }

  /** How many failures end the list. */
  function Streak(outcomes: seq<bool>): nat {
    if outcomes == [] || outcomes[|outcomes| - 1] then 0 else 1 + Streak(outcomes[..|outcomes| - 1])
  }

  lemma StreakNext(outcomes: seq<bool>, ok: bool)
    ensures Streak(outcomes + [ok]) == if ok then 0 else 1 + Streak(outcomes)
  {
    assert (outcomes + [ok])[..|outcomes|] == outcomes;
  }

  predicate Counts(cfg: Config, t: Traced) {
    var c := t.circuit;
    && (c.phase == Closed ==> c.failures == Streak(t.outcomes) < cfg.failureThreshold)
    && 0 <= c.inFlight <= cfg.halfOpenMaxRequests
    && (c.phase != HalfOpen ==> c.inFlight == 0)
  }

  lemma CountsStep(cfg: Config, t: Traced, e: Event)
    requires Counts(cfg, t)
    ensures Counts(cfg, Trace(cfg, t, e))
  {
    if e.Finish? && !e.ending.BusinessError? {
      StreakNext(t.outcomes, e.ending.Succeeded?);
    }
  }

  lemma OpensOnFullStreak(cfg: Config, t: Traced, e: Event)
    requires Counts(cfg, t) && t.circuit.phase == Closed
    ensures Opens(cfg, t.circuit, e) <==>
            e.Finish? && e.ending.StorageFailed? && Streak(t.outcomes + [false]) == cfg.failureThreshold
  {
    StreakNext(t.outcomes, false);
  }

  lemma {:induction false} CountsFrom(cfg: Config, t: Traced, es: seq<Event>)
    requires Counts(cfg, t)
    ensures Counts(cfg, TraceAll(cfg, t, es))
    decreases |es|
  {
    if es != [] {
      CountsStep(cfg, t, es[0]);
      CountsFrom(cfg, Trace(cfg, t, es[0]), es[1..]);
    }
  }

  /**
   * In every run, resets and backward clocks included: while closed, the failure count is the current
   * streak of recorded failures and is below the threshold; a closed breaker opens exactly on the failure
   * that completes such a streak; and the probe count stays within its bounds.
   */
  lemma CountsHold(cfg: Config, es: seq<Event>, e: Event)
    ensures var t := TraceAll(cfg, Traced(FRESH, []), es);
      && Counts(cfg, t)
      && (t.circuit.phase == Closed ==>
            (Opens(cfg, t.circuit, e) <==>
               e.Finish? && e.ending.StorageFailed? && Streak(t.outcomes + [false]) == cfg.failureThreshold))
  {
    CountsFrom(cfg, Traced(FRESH, []), es);
    if TraceAll(cfg, Traced(FRESH, []), es).circuit.phase == Closed {
      OpensOnFullStreak(cfg, TraceAll(cfg, Traced(FRESH, []), es), e);
    }
  }

  // ---------------------------------------------------------------- what half-open does not promise

  function Run(cfg: Config, c: Circuit, es: seq<Event>): Circuit
    decreases |es|
  {
    if es == [] then c else Run(cfg, Step(cfg, c, es[0]).0, es[1..])
  }

  /** n probes, one after the other, each ending in a business error. */
  function BusinessProbes(n: nat, now: int): seq<Event> {
    if n == 0 then [] else BusinessProbes(n - 1, now) + [Call(now), Finish(BusinessError, now)]
  }

  predicate Unrecorded(es: seq<Event>) {
    forall i | 0 <= i < |es| :: es[i].Call? || (es[i].Finish? && es[i].ending.BusinessError?)
  }

  predicate AdmitsNothing(cfg: Config, c: Circuit, es: seq<Event>)
    decreases |es|
  {
    es == [] || (!Step(cfg, c, es[0]).1 && AdmitsNothing(cfg, Step(cfg, c, es[0]).0, es[1..]))
  }

  lemma {:induction false} RunAppend(cfg: Config, c: Circuit, a: seq<Event>, b: seq<Event>)
    ensures Run(cfg, c, a + b) == Run(cfg, Run(cfg, c, a), b)
    decreases |a|
  {
    if a == [] {
      assert a + b == b;
    } else {
      assert (a + b)[0] == a[0] && (a + b)[1..] == a[1..] + b;
      RunAppend(cfg, Step(cfg, c, a[0]).0, a[1..], b);
    }
  }

  lemma RunTwo(cfg: Config, c: Circuit, a: Event, b: Event)
    ensures Run(cfg, c, [a, b]) == Step(cfg, Step(cfg, c, a).0, b).0
  {
    assert [a, b][1..] == [b] && [b][1..] == [];
    assert Run(cfg, Step(cfg, c, a).0, [b]) == Step(cfg, Step(cfg, c, a).0, b).0;
  }

  lemma {:induction false} ProbesFillUp(cfg: Config, c: Circuit, n: nat, now: int)
    requires c.phase == Open && now >= c.openedAt + cfg.resetTimeoutMs && 1 <= n <= cfg.halfOpenMaxRequests
    ensures var c' := Run(cfg, c, BusinessProbes(n, now)); c'.phase == HalfOpen && c'.inFlight == n
  {
    var last := [Call(now), Finish(BusinessError, now)];
    var before := Run(cfg, c, BusinessProbes(n - 1, now));
    RunAppend(cfg, c, BusinessProbes(n - 1, now), last);
    RunTwo(cfg, before, last[0], last[1]);
    if n > 1 {
      ProbesFillUp(cfg, c, n - 1, now);
    }
  }

  lemma RunLast(cfg: Config, c: Circuit, es: seq<Event>, e: Event)
    ensures Run(cfg, c, es + [e]) == Step(cfg, Run(cfg, c, es), e).0
  {
    RunAppend(cfg, c, es, [e]);
    assert [e][1..] == [];
  }

  predicate IsFull(cfg: Config, c: Circuit) {
    c.phase == HalfOpen && c.inFlight == cfg.halfOpenMaxRequests
  }

  lemma {:induction false} StaysFull(cfg: Config, c: Circuit, es: seq<Event>)
    requires IsFull(cfg, c) && Unrecorded(es)
    ensures AdmitsNothing(cfg, c, es) && IsFull(cfg, Run(cfg, c, es))
    decreases |es|
  {
    if es != [] {
      assert es[0].Call? || es[0].ending.BusinessError?;
      assert Unrecorded(es[1..]);
      StaysFull(cfg, Step(cfg, c, es[0]).0, es[1..]);
    }
  }

  /**
   * Business errors record nothing, so probes that end in them keep their places: after as many as the
   * limit, a half-open breaker admits no call until something is recorded, however healthy the storage.
   */
  lemma BusinessErrorsWedgeHalfOpen(cfg: Config, c: Circuit, now: int, es: seq<Event>)
    requires c.phase == Open && now >= c.openedAt + cfg.resetTimeoutMs && Unrecorded(es)
    ensures var full := Run(cfg, c, BusinessProbes(cfg.halfOpenMaxRequests, now));
      IsFull(cfg, full) && AdmitsNothing(cfg, full, es)
  {
    ProbesFillUp(cfg, c, cfg.halfOpenMaxRequests, now);
    StaysFull(cfg, Run(cfg, c, BusinessProbes(cfg.halfOpenMaxRequests, now)), es);
  }

  /** What lets a call in at `now`: a recorded success, a failure that is old enough by then, or a reset. */
  predicate Frees(cfg: Config, e: Event, now: int) {
    match e
    case Call(_) => false
    case Finish(ending, at) =>
      ending.Succeeded? || (ending.StorageFailed? && now - at >= cfg.resetTimeoutMs)
    case ResetAt(_) => true
  }

  /** A full half-open breaker admits again exactly after an event that frees it, however long it stood full. */
  lemma FullUntilFreed(cfg: Config, c: Circuit, quiet: seq<Event>, e: Event, now: int)
    requires IsFull(cfg, c) && Unrecorded(quiet)
    ensures AdmitsNothing(cfg, c, quiet)
    ensures Step(cfg, Run(cfg, c, quiet + [e]), Call(now)).1 <==> Frees(cfg, e, now)
  {
    StaysFull(cfg, c, quiet);
    RunLast(cfg, c, quiet, e);
    assert TryAcquire(cfg, Run(cfg, c, quiet), now) == (Run(cfg, c, quiet), false);
  }

  /** n probes admitted at once. */
  function Probes(n: nat, now: int): seq<Event> {
    if n == 0 then [] else Probes(n - 1, now) + [Call(now)]
  }

  function Successes(m: nat, now: int): seq<Event> {
    if m == 0 then [] else Successes(m - 1, now) + [Finish(Succeeded, now)]
  }

  lemma {:induction false} ProbesAreCounted(cfg: Config, c: Circuit, n: nat, now: int)
    requires c.phase == Open && now >= c.openedAt + cfg.resetTimeoutMs && 1 <= n <= cfg.halfOpenMaxRequests
    ensures var c' := Run(cfg, c, Probes(n, now)); c'.phase == HalfOpen && c'.inFlight == n
  {
    RunLast(cfg, c, Probes(n - 1, now), Call(now));
    if n > 1 {
      ProbesAreCounted(cfg, c, n - 1, now);
    }
  }

  lemma {:induction false} SuccessesAreCounted(cfg: Config, c: Circuit, m: nat, now: int)
    requires c.phase == HalfOpen && 1 <= c.inFlight && m <= c.inFlight
    ensures var c' := Run(cfg, c, Successes(m, now));
      if m < c.inFlight then c'.phase == HalfOpen && c'.inFlight == c.inFlight - m
      else c'.phase == Closed && c'.failures == 0
  {
    if m > 0 {
      SuccessesAreCounted(cfg, c, m - 1, now);
      RunLast(cfg, c, Successes(m - 1, now), Finish(Succeeded, now));
    }
  }

  /** Of n probes admitted together it is the last success that closes the breaker, not the first. */
  lemma LastSuccessCloses(cfg: Config, c: Circuit, n: nat, m: nat, now: int)
    requires c.phase == Open && now >= c.openedAt + cfg.resetTimeoutMs && 1 <= n <= cfg.halfOpenMaxRequests && m <= n
    ensures Run(cfg, c, Probes(n, now) + Successes(m, now)).phase == Closed <==> m == n
    ensures Run(cfg, c, Probes(n, now) + Successes(m, now)).phase != Open
  {
    ProbesAreCounted(cfg, c, n, now);
    SuccessesAreCounted(cfg, Run(cfg, c, Probes(n, now)), m, now);
    RunAppend(cfg, c, Probes(n, now), Successes(m, now));
  }
}
