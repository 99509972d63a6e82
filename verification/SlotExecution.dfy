/**
 * executeBySlot of cluster.ts: a batch is regrouped by hash slot, and the groups run as pipelines on
 * interleaved workers. The outcome is that of running the batch in order.
 */
module SlotExecution {
  import opened Wrappers
  import SlotGroups

  type Data = map<string, string>

  /** What a pipeline reports per command: an error or a value. */
  datatype Outcome = Failed(error: string) | Done(value: Option<string>)

  /** A command with the slot its caller declared; `run` is what the server does. */
  datatype Command = Command(slot: nat, run: Data -> (Data, Outcome))

  ghost predicate Agree(slotOf: string -> nat, slot: nat, a: Data, b: Data) {
    forall k | slotOf(k) == slot :: (k in a <==> k in b) && (k in a ==> a[k] == b[k])
  }

  /** The command reads and writes only keys of its declared slot. */
  ghost predicate Local(slotOf: string -> nat, c: Command) {
    && (forall a, b {:trigger c.run(a), c.run(b)} | Agree(slotOf, c.slot, a, b) ::
          c.run(a).1 == c.run(b).1 && Agree(slotOf, c.slot, c.run(a).0, c.run(b).0))
    && (forall a, s {:trigger Agree(slotOf, s, a, c.run(a).0)} | s != c.slot :: Agree(slotOf, s, a, c.run(a).0))
  }

  ghost predicate AllLocal(slotOf: string -> nat, cs: seq<Command>) {
    forall i | 0 <= i < |cs| :: Local(slotOf, cs[i])
  }

  // ---------------------------------------------------------------- running in order

  function InOrder(cs: seq<Command>, data: Data, n: nat): Data
    requires n <= |cs|
  {
    if n == 0 then data else cs[n - 1].run(InOrder(cs, data, n - 1)).0
  }

  function OutcomeInOrder(cs: seq<Command>, data: Data, i: nat): Outcome
    requires i < |cs|
  {
    cs[i].run(InOrder(cs, data, i)).1
  }

  // ---------------------------------------------------------------- one slot on its own

  /** The positions, among the first n, of the commands of a slot. */
  function IndexesOf(cs: seq<Command>, n: nat, slot: nat): (js: seq<nat>)
    requires n <= |cs|
    ensures forall p | 0 <= p < |js| :: js[p] < n && cs[js[p]].slot == slot
  {
    if n == 0 then []
    else IndexesOf(cs, n - 1, slot) + (if cs[n - 1].slot == slot then [n - 1] else [])
  }

  predicate Ascending(js: seq<nat>) {
    forall p, q | 0 <= p < q < |js| :: js[p] < js[q]
  }

  lemma {:induction false} IndexesAscend(cs: seq<Command>, n: nat, slot: nat)
    requires n <= |cs|
    ensures Ascending(IndexesOf(cs, n, slot))
  {
    if n > 0 {
      IndexesAscend(cs, n - 1, slot);
      assert forall p | 0 <= p < |IndexesOf(cs, n - 1, slot)| ::
        IndexesOf(cs, n, slot)[p] == IndexesOf(cs, n - 1, slot)[p];
    }
  }

  lemma {:induction false} IndexesComplete(cs: seq<Command>, n: nat, i: nat)
    requires i < n <= |cs|
    ensures i in IndexesOf(cs, n, cs[i].slot)
  {
    if i < n - 1 {
      IndexesComplete(cs, n - 1, i);
    }
  }

  /** The data after the commands at the first `d` of these positions. */
  function Along(cs: seq<Command>, js: seq<nat>, data: Data, d: nat): Data
    requires d <= |js| && forall p | 0 <= p < |js| :: js[p] < |cs|
  {
    if d == 0 then data else cs[js[d - 1]].run(Along(cs, js, data, d - 1)).0
  }

  lemma {:induction false} AlongPrefix(cs: seq<Command>, js: seq<nat>, more: seq<nat>, data: Data, d: nat)
    requires d <= |js| && forall p | 0 <= p < |js + more| :: (js + more)[p] < |cs|
    requires forall p | 0 <= p < |js| :: js[p] < |cs|
    ensures Along(cs, js + more, data, d) == Along(cs, js, data, d)
  {
    if d > 0 {
      assert (js + more)[d - 1] == js[d - 1];
      AlongPrefix(cs, js, more, data, d - 1);
    }
  }

  lemma AgreeChain(slotOf: string -> nat, slot: nat, a: Data, b: Data, c: Data)
    requires Agree(slotOf, slot, a, b) && Agree(slotOf, slot, b, c)
    ensures Agree(slotOf, slot, a, c) && Agree(slotOf, slot, b, a)
  {
  }

  /** Data that agree on a command's slot get the same outcome, and still agree. */
  lemma OwnSlot(slotOf: string -> nat, c: Command, a: Data, b: Data)
    requires Local(slotOf, c) && Agree(slotOf, c.slot, a, b)
    ensures c.run(a).1 == c.run(b).1 && Agree(slotOf, c.slot, c.run(a).0, c.run(b).0)
  {
  }

  lemma LocalAt(slotOf: string -> nat, cs: seq<Command>, i: nat)
    requires AllLocal(slotOf, cs) && i < |cs|
    ensures Local(slotOf, cs[i])
  {
  }

  /** A command leaves the other slots alone. */
  lemma OtherSlot(slotOf: string -> nat, c: Command, slot: nat, a: Data)
    requires Local(slotOf, c) && slot != c.slot
    ensures Agree(slotOf, slot, a, c.run(a).0) && Agree(slotOf, slot, c.run(a).0, a)
  {
    assert Agree(slotOf, slot, a, c.run(a).0);
  }

  /** On a slot's keys, running everything in order and running that slot's commands alone agree. */
  lemma {:induction false} SlotAlone(slotOf: string -> nat, cs: seq<Command>, data: Data, n: nat, slot: nat)
    requires n <= |cs| && AllLocal(slotOf, cs)
    ensures var js := IndexesOf(cs, n, slot); Agree(slotOf, slot, InOrder(cs, data, n), Along(cs, js, data, |js|))
  {
    if n > 0 {
      SlotAlone(slotOf, cs, data, n - 1, slot);
      LocalAt(slotOf, cs, n - 1);
      var js := IndexesOf(cs, n - 1, slot);
      var prev, alone := InOrder(cs, data, n - 1), Along(cs, js, data, |js|);
      if cs[n - 1].slot == slot {
        AlongPrefix(cs, js, [n - 1], data, |js|);
        OwnSlot(slotOf, cs[n - 1], prev, alone);
      } else {
        assert IndexesOf(cs, n, slot) == js;
        OtherSlot(slotOf, cs[n - 1], slot, prev);
        AgreeChain(slotOf, slot, InOrder(cs, data, n), prev, alone);
      }
    }
  }

  /** The p-th command of a slot is the one whose predecessors in that slot are the first p. */
  lemma {:induction false} IndexesBefore(cs: seq<Command>, n: nat, slot: nat, p: nat)
    requires n <= |cs| && p < |IndexesOf(cs, n, slot)|
    ensures IndexesOf(cs, IndexesOf(cs, n, slot)[p], slot) == IndexesOf(cs, n, slot)[..p]
  {
    var js := IndexesOf(cs, n - 1, slot);
    if p < |js| {
      IndexesBefore(cs, n - 1, slot, p);
      assert IndexesOf(cs, n, slot)[..p] == js[..p];
    }
  }

  /** A slot's commands, run alone, report what they report in order. */
  lemma OutcomeAlone(slotOf: string -> nat, cs: seq<Command>, data: Data, slot: nat, p: nat)
    requires AllLocal(slotOf, cs) && p < |IndexesOf(cs, |cs|, slot)|
    ensures var js := IndexesOf(cs, |cs|, slot);
      cs[js[p]].run(Along(cs, js, data, p)).1 == OutcomeInOrder(cs, data, js[p])
  {
    var js := IndexesOf(cs, |cs|, slot);
    IndexesBefore(cs, |cs|, slot, p);
    SlotAlone(slotOf, cs, data, js[p], slot);
    assert js == js[..p] + js[p..];
    AlongPrefix(cs, js[..p], js[p..], data, p);
    assert Local(slotOf, cs[js[p]]);
  }

  // ---------------------------------------------------------------- grouping

  /** One entry of the group map: a slot and the positions of its commands, in order. */
  datatype Group = Group(slot: nat, indexes: seq<nat>)

  predicate HasSlot(gs: seq<Group>, slot: nat) {
    exists g :: 0 <= g < |gs| && gs[g].slot == slot
  }

  /** The groups partition the first n commands by slot. */
  predicate Groups(cs: seq<Command>, n: nat, gs: seq<Group>)
    requires n <= |cs|
  {
    && (forall g | 0 <= g < |gs| :: gs[g].indexes == IndexesOf(cs, n, gs[g].slot))
    && (forall g, h | 0 <= g < h < |gs| :: gs[g].slot != gs[h].slot)
    && (forall i | 0 <= i < n :: HasSlot(gs, cs[i].slot))
  }

  lemma {:induction false} NoIndexes(cs: seq<Command>, n: nat, slot: nat)
    requires n <= |cs| && forall i | 0 <= i < n :: cs[i].slot != slot
    ensures IndexesOf(cs, n, slot) == []
  {
    if n > 0 {
      NoIndexes(cs, n - 1, slot);
    }
  }

  function SlotAt(cs: seq<Command>): nat -> nat {
    (i: nat) => if i < |cs| then cs[i].slot else 0
  }

  function UpTo(n: nat): seq<nat> {
    seq(n, i requires 0 <= i < n => i)
  }

  lemma {:induction false} IndexesAreBucket(cs: seq<Command>, n: nat, slot: nat)
    requires n <= |cs|
    ensures IndexesOf(cs, n, slot) == SlotGroups.Bucket(SlotAt(cs), UpTo(n), slot)
  {
    if n > 0 {
      IndexesAreBucket(cs, n - 1, slot);
      assert UpTo(n)[..n - 1] == UpTo(n - 1);
    }
  }

  /** Array.from(groups.entries()) */
  function Entries(order: seq<nat>, groups: map<nat, seq<nat>>): (gs: seq<Group>)
    requires forall s | s in order :: s in groups
    ensures |gs| == |order| && forall g | 0 <= g < |gs| :: gs[g] == Group(order[g], groups[order[g]])
  {
    if order == [] then []
    else
      var last := order[|order| - 1];
      Entries(order[..|order| - 1], groups) + [Group(last, groups[last])]
  }

  lemma EntriesHaveSlots(cs: seq<Command>, order: seq<nat>, groups: map<nat, seq<nat>>, i: nat)
    requires SlotGroups.Grouped(SlotAt(cs), UpTo(|cs|), order, groups) && i < |cs|
    ensures HasSlot(Entries(order, groups), cs[i].slot)
  {
    SlotGroups.OrderComplete(SlotAt(cs), UpTo(|cs|));
    assert SlotAt(cs)(UpTo(|cs|)[i]) in order;
    var g :| 0 <= g < |order| && order[g] == cs[i].slot;
    assert Entries(order, groups)[g].slot == cs[i].slot;
  }

  lemma EntriesAreGroups(cs: seq<Command>, order: seq<nat>, groups: map<nat, seq<nat>>)
    requires SlotGroups.Grouped(SlotAt(cs), UpTo(|cs|), order, groups)
    ensures Groups(cs, |cs|, Entries(order, groups))
  {
    var gs := Entries(order, groups);
    SlotGroups.OrderDistinct(SlotAt(cs), UpTo(|cs|));
    forall g | 0 <= g < |gs| ensures gs[g].indexes == IndexesOf(cs, |cs|, gs[g].slot) {
      IndexesAreBucket(cs, |cs|, gs[g].slot);
    }
    forall i | 0 <= i < |cs| ensures HasSlot(gs, cs[i].slot) {
      EntriesHaveSlots(cs, order, groups, i);
    }
  }

  method GroupBySlot(cs: seq<Command>) returns (groups: seq<Group>)
    ensures Groups(cs, |cs|, groups)
  {
    var order, byslot := SlotGroups.Group(SlotAt(cs), UpTo(|cs|));
    EntriesAreGroups(cs, order, byslot);
    groups := Entries(order, byslot);
  }

  // ---------------------------------------------------------------- the workers

  datatype Worker = Ready | Busy(group: nat) | Finished

  /** What the workers share: the cursor, the replies of each pipeline so far, the data and the results. */
  datatype Pool = Pool(
    cursor: nat,
    workers: seq<Worker>,
    replies: seq<seq<Outcome>>,
    data: Data,
    results: seq<Option<Outcome>>)

  /** results[item.index] = raw[i], for each item of the group. */
  function Fill(results: seq<Option<Outcome>>, js: seq<nat>, raw: seq<Outcome>): (r: seq<Option<Outcome>>)
    requires |js| == |raw| && forall p | 0 <= p < |js| :: js[p] < |results|
    ensures |r| == |results|
  {
    if js == [] then results
    else Fill(results, js[..|js| - 1], raw[..|raw| - 1])[js[|js| - 1] := Some(raw[|raw| - 1])]
  }

  predicate Shaped(cs: seq<Command>, gs: seq<Group>, p: Pool) {
    && |p.replies| == |gs| && |p.results| == |cs|
    && (forall g | 0 <= g < |gs| :: |p.replies[g]| <= |gs[g].indexes|)
    && (forall g, i | 0 <= g < |gs| && 0 <= i < |gs[g].indexes| :: gs[g].indexes[i] < |cs|)
    && (forall w | 0 <= w < |p.workers| :: p.workers[w].Busy? ==> p.workers[w].group < |gs|)
  }

  /** One step of one worker: take the next group, run its next command, or report the whole pipeline. */
  function Step(cs: seq<Command>, gs: seq<Group>, p: Pool, w: nat): (p': Pool)
    requires Shaped(cs, gs, p)
    ensures Shaped(cs, gs, p') && |p'.workers| == |p.workers|
  {
    if w >= |p.workers| then p
    else
      match p.workers[w]
      case Finished => p
      case Ready =>
        if p.cursor < |gs| then p.(workers := p.workers[w := Busy(p.cursor)], cursor := p.cursor + 1)
        else p.(workers := p.workers[w := Finished])
      case Busy(g) =>
        var done := |p.replies[g]|;
        if done < |gs[g].indexes| then
          var (data, outcome) := cs[gs[g].indexes[done]].run(p.data);
          p.(data := data, replies := p.replies[g := p.replies[g] + [outcome]])
        else
          p.(results := Fill(p.results, gs[g].indexes, p.replies[g]), workers := p.workers[w := Ready])
  }

  /** The slot of this group holds what its first commands, alone, would have left; so do their replies. */
  ghost predicate GroupFits(slotOf: string -> nat, cs: seq<Command>, g: Group, data: Data, replies: seq<Outcome>,
                            now: Data)
    requires |replies| <= |g.indexes| && forall p | 0 <= p < |g.indexes| :: g.indexes[p] < |cs|
  {
    && Agree(slotOf, g.slot, now, Along(cs, g.indexes, data, |replies|))
    && (forall i | 0 <= i < |replies| :: replies[i] == OutcomeInOrder(cs, data, g.indexes[i]))
  }

  /** Every running group has one worker, and lies before the cursor. */
  predicate Manned(gs: seq<Group>, p: Pool) {
    && p.cursor <= |gs|
    && (forall w | 0 <= w < |p.workers| ::
          && (p.workers[w].Busy? ==> p.workers[w].group < p.cursor)
          && (p.workers[w].Finished? ==> p.cursor == |gs|))
    && (forall v, w | 0 <= v < w < |p.workers| && p.workers[v].Busy? :: p.workers[v] != p.workers[w])
  }

  /** Started, and not held by a worker. */
  predicate Reported(p: Pool, g: nat) {
    g < p.cursor && Busy(g) !in p.workers
  }

  ghost predicate DataFits(slotOf: string -> nat, cs: seq<Command>, gs: seq<Group>, data: Data, p: Pool)
    requires Shaped(cs, gs, p)
  {
    && (forall g | 0 <= g < |gs| :: GroupFits(slotOf, cs, gs[g], data, p.replies[g], p.data))
    && (forall slot | !HasSlot(gs, slot) :: Agree(slotOf, slot, p.data, data))
  }

  /** A pipeline replies from its start to its report; results are written at the report, once. */
  ghost predicate ResultsFit(cs: seq<Command>, gs: seq<Group>, data: Data, p: Pool)
    requires Shaped(cs, gs, p)
  {
    && (forall g | 0 <= g < |gs| :: g >= p.cursor ==> p.replies[g] == [])
    && (forall g | 0 <= g < |gs| :: Reported(p, g) ==> |p.replies[g]| == |gs[g].indexes|)
    && (forall g, i | 0 <= g < |gs| && 0 <= i < |gs[g].indexes| ::
          p.results[gs[g].indexes[i]] ==
          if Reported(p, g) then Some(OutcomeInOrder(cs, data, gs[g].indexes[i])) else None)
  }

  ghost predicate Invariant(slotOf: string -> nat, cs: seq<Command>, gs: seq<Group>, data: Data, p: Pool) {
    Shaped(cs, gs, p) && Manned(gs, p) && DataFits(slotOf, cs, gs, data, p) && ResultsFit(cs, gs, data, p)
  }

  /** The pool as executeBySlot sets it up. */
  function Start(cs: seq<Command>, gs: seq<Group>, data: Data, concurrency: int): Pool {
    Pool(0, seq(Min(Max(1, concurrency), |gs|), _ => Ready), seq(|gs|, _ => []), data, seq(|cs|, _ => None))
  }

  lemma StartFits(slotOf: string -> nat, cs: seq<Command>, gs: seq<Group>, data: Data, concurrency: int)
    requires Groups(cs, |cs|, gs)
    ensures Invariant(slotOf, cs, gs, data, Start(cs, gs, data, concurrency))
  {
  }

  // ---------------------------------------------------------------- each kind of step

  lemma TakeStep(slotOf: string -> nat, cs: seq<Command>, gs: seq<Group>, data: Data, p: Pool, w: nat)
    requires Invariant(slotOf, cs, gs, data, p) && w < |p.workers| && p.workers[w].Ready?
    ensures Invariant(slotOf, cs, gs, data, Step(cs, gs, p, w))
  {
    var p' := Step(cs, gs, p, w);
    forall g | 0 <= g < |gs| ensures Reported(p', g) == Reported(p, g) {
      if Busy(g) in p.workers {
        var v :| 0 <= v < |p.workers| && p.workers[v] == Busy(g);
        assert p'.workers[v] == Busy(g);
      }
      if p.cursor < |gs| {
        assert p'.workers[w] == Busy(p.cursor);
      }
    }
  }

  lemma OwnCommand(slotOf: string -> nat, cs: seq<Command>, g: Group, data: Data, replies: seq<Outcome>, now: Data)
    requires AllLocal(slotOf, cs) && g.indexes == IndexesOf(cs, |cs|, g.slot) && |replies| < |g.indexes|
    requires GroupFits(slotOf, cs, g, data, replies, now)
    ensures var (now', outcome) := cs[g.indexes[|replies|]].run(now);
      GroupFits(slotOf, cs, g, data, replies + [outcome], now')
  {
    assert Local(slotOf, cs[g.indexes[|replies|]]);
    OutcomeAlone(slotOf, cs, data, g.slot, |replies|);
  }

  lemma OtherCommand(slotOf: string -> nat, cs: seq<Command>, g: Group, data: Data, replies: seq<Outcome>, now: Data,
                     c: Command)
    requires |replies| <= |g.indexes| && forall p | 0 <= p < |g.indexes| :: g.indexes[p] < |cs|
    requires GroupFits(slotOf, cs, g, data, replies, now) && Local(slotOf, c) && c.slot != g.slot
    ensures GroupFits(slotOf, cs, g, data, replies, c.run(now).0)
  {
    OtherSlot(slotOf, c, g.slot, now);
    AgreeChain(slotOf, g.slot, c.run(now).0, now, Along(cs, g.indexes, data, |replies|));
  }

  lemma CommandDataFits(slotOf: string -> nat, cs: seq<Command>, gs: seq<Group>, data: Data, p: Pool, g: nat)
    requires Shaped(cs, gs, p) && DataFits(slotOf, cs, gs, data, p) && Groups(cs, |cs|, gs) && AllLocal(slotOf, cs)
    requires g < |gs| && |p.replies[g]| < |gs[g].indexes|
    ensures var (now, outcome) := cs[gs[g].indexes[|p.replies[g]|]].run(p.data);
      var p' := p.(data := now, replies := p.replies[g := p.replies[g] + [outcome]]);
      Shaped(cs, gs, p') && DataFits(slotOf, cs, gs, data, p')
  {
    var c := cs[gs[g].indexes[|p.replies[g]|]];
    OwnCommand(slotOf, cs, gs[g], data, p.replies[g], p.data);
    forall h | 0 <= h < |gs| && h != g ensures GroupFits(slotOf, cs, gs[h], data, p.replies[h], c.run(p.data).0) {
      OtherCommand(slotOf, cs, gs[h], data, p.replies[h], p.data, c);
    }
    forall slot | !HasSlot(gs, slot) ensures Agree(slotOf, slot, c.run(p.data).0, data) {
      assert slot != gs[g].slot;
      OtherSlot(slotOf, c, slot, p.data);
      AgreeChain(slotOf, slot, c.run(p.data).0, p.data, data);
    }
  }

  lemma CommandStep(slotOf: string -> nat, cs: seq<Command>, gs: seq<Group>, data: Data, p: Pool, w: nat)
    requires Invariant(slotOf, cs, gs, data, p) && Groups(cs, |cs|, gs) && AllLocal(slotOf, cs)
    requires w < |p.workers| && p.workers[w].Busy? && |p.replies[p.workers[w].group]| < |gs[p.workers[w].group].indexes|
    ensures Invariant(slotOf, cs, gs, data, Step(cs, gs, p, w))
  {
    CommandDataFits(slotOf, cs, gs, data, p, p.workers[w].group);
    assert p.workers[w] == Busy(p.workers[w].group);
    assert forall g :: Reported(Step(cs, gs, p, w), g) == Reported(p, g);
  }

  lemma {:induction false} FillAt(results: seq<Option<Outcome>>, js: seq<nat>, raw: seq<Outcome>, i: nat)
    requires |js| == |raw| && i < |results| && forall p | 0 <= p < |js| :: js[p] < |results|
    requires Ascending(js)
    ensures i !in js ==> Fill(results, js, raw)[i] == results[i]
    ensures forall p | 0 <= p < |js| && js[p] == i :: Fill(results, js, raw)[i] == Some(raw[p])
    decreases |js|
  {
    if js != [] {
      FillAt(results, js[..|js| - 1], raw[..|raw| - 1], i);
    }
  }

  /** Once worker w lets go of group g, that group is reported and no other group changes. */
  lemma Released(gs: seq<Group>, p: Pool, w: nat, h: nat)
    requires Manned(gs, p) && w < |p.workers| && p.workers[w].Busy? && h < |gs|
    ensures Manned(gs, p.(workers := p.workers[w := Ready]))
    ensures Reported(p.(workers := p.workers[w := Ready]), h) <==> Reported(p, h) || h == p.workers[w].group
  {
    if h != p.workers[w].group && Busy(h) in p.workers {
      var v :| 0 <= v < |p.workers| && p.workers[v] == Busy(h);
      assert p.workers[w := Ready][v] == Busy(h);
    }
  }

  lemma ReportWrites(cs: seq<Command>, gs: seq<Group>, p: Pool, g: nat, h: nat, i: nat)
    requires Shaped(cs, gs, p) && Groups(cs, |cs|, gs) && g < |gs| && |p.replies[g]| == |gs[g].indexes|
    requires h < |gs| && i < |gs[h].indexes|
    ensures Fill(p.results, gs[g].indexes, p.replies[g])[gs[h].indexes[i]] ==
            if h == g then Some(p.replies[g][i]) else p.results[gs[h].indexes[i]]
  {
    IndexesAscend(cs, |cs|, gs[g].slot);
    FillAt(p.results, gs[g].indexes, p.replies[g], gs[h].indexes[i]);
    if h != g {
      assert cs[gs[h].indexes[i]].slot == gs[h].slot != gs[g].slot;
    }
  }

  lemma ReportStep(slotOf: string -> nat, cs: seq<Command>, gs: seq<Group>, data: Data, p: Pool, w: nat)
    requires Invariant(slotOf, cs, gs, data, p) && Groups(cs, |cs|, gs)
    requires w < |p.workers| && p.workers[w].Busy?
    requires |p.replies[p.workers[w].group]| == |gs[p.workers[w].group].indexes|
    ensures Invariant(slotOf, cs, gs, data, Step(cs, gs, p, w))
  {
    var g := p.workers[w].group;
    var p' := Step(cs, gs, p, w);
    assert GroupFits(slotOf, cs, gs[g], data, p.replies[g], p.data);
    forall h | 0 <= h < |gs| ensures Reported(p', h) <==> Reported(p, h) || h == g {
      Released(gs, p, w, h);
    }
    forall h, i | 0 <= h < |gs| && 0 <= i < |gs[h].indexes|
      ensures p'.results[gs[h].indexes[i]] ==
              if Reported(p', h) then Some(OutcomeInOrder(cs, data, gs[h].indexes[i])) else None
    {
      ReportWrites(cs, gs, p, g, h, i);
    }
  }

  lemma InvariantStep(slotOf: string -> nat, cs: seq<Command>, gs: seq<Group>, data: Data, p: Pool, w: nat)
    requires Invariant(slotOf, cs, gs, data, p) && Groups(cs, |cs|, gs) && AllLocal(slotOf, cs)
    ensures Invariant(slotOf, cs, gs, data, Step(cs, gs, p, w))
  {
    if w < |p.workers| {
      match p.workers[w]
      case Finished =>
      case Ready => TakeStep(slotOf, cs, gs, data, p, w);
      case Busy(g) =>
        if |p.replies[g]| < |gs[g].indexes| {
          CommandStep(slotOf, cs, gs, data, p, w);
        } else {
          ReportStep(slotOf, cs, gs, data, p, w);
        }
    }
  }

  // ---------------------------------------------------------------- every schedule

  predicate AllFinished(p: Pool) {
    forall w | 0 <= w < |p.workers| :: p.workers[w].Finished?
  }

  lemma AllReported(cs: seq<Command>, gs: seq<Group>, p: Pool, g: nat)
    requires Manned(gs, p) && AllFinished(p) && p.workers != [] && g < |gs|
    ensures Reported(p, g)
  {
    assert p.workers[0].Finished?;
  }

  lemma SlotFinished(slotOf: string -> nat, cs: seq<Command>, gs: seq<Group>, data: Data, p: Pool, slot: nat)
    requires Invariant(slotOf, cs, gs, data, p) && Groups(cs, |cs|, gs) && AllLocal(slotOf, cs)
    requires AllFinished(p) && (gs != [] ==> p.workers != [])
    ensures Agree(slotOf, slot, p.data, InOrder(cs, data, |cs|))
  {
    SlotAlone(slotOf, cs, data, |cs|, slot);
    var js := IndexesOf(cs, |cs|, slot);
    if HasSlot(gs, slot) {
      var g :| 0 <= g < |gs| && gs[g].slot == slot;
      AllReported(cs, gs, p, g);
      assert GroupFits(slotOf, cs, gs[g], data, p.replies[g], p.data);
    } else {
      NoIndexes(cs, |cs|, slot);
      assert Agree(slotOf, slot, p.data, data);
    }
    AgreeChain(slotOf, slot, InOrder(cs, data, |cs|), Along(cs, js, data, |js|), Along(cs, js, data, |js|));
    AgreeChain(slotOf, slot, p.data, Along(cs, js, data, |js|), InOrder(cs, data, |cs|));
  }

  lemma ResultFinished(slotOf: string -> nat, cs: seq<Command>, gs: seq<Group>, data: Data, p: Pool, i: nat)
    requires Invariant(slotOf, cs, gs, data, p) && Groups(cs, |cs|, gs)
    requires AllFinished(p) && (gs != [] ==> p.workers != []) && i < |cs|
    ensures p.results[i] == Some(OutcomeInOrder(cs, data, i))
  {
    assert HasSlot(gs, cs[i].slot);
    var g :| 0 <= g < |gs| && gs[g].slot == cs[i].slot;
    IndexesComplete(cs, |cs|, i);
    AllReported(cs, gs, p, g);
    var q :| 0 <= q < |gs[g].indexes| && gs[g].indexes[q] == i;
  }

  /** When every worker has finished, the results and the data are those of the batch in order. */
  lemma FinishedMeansInOrder(slotOf: string -> nat, cs: seq<Command>, gs: seq<Group>, data: Data, p: Pool)
    requires Invariant(slotOf, cs, gs, data, p) && Groups(cs, |cs|, gs) && AllLocal(slotOf, cs)
    requires AllFinished(p) && (gs != [] ==> p.workers != [])
    ensures p.data == InOrder(cs, data, |cs|)
    ensures forall i | 0 <= i < |cs| :: p.results[i] == Some(OutcomeInOrder(cs, data, i))
  {
    forall i | 0 <= i < |cs| ensures p.results[i] == Some(OutcomeInOrder(cs, data, i)) {
      ResultFinished(slotOf, cs, gs, data, p, i);
    }
    forall slot ensures Agree(slotOf, slot, p.data, InOrder(cs, data, |cs|)) {
      SlotFinished(slotOf, cs, gs, data, p, slot);
    }
    AgreeEverywhere(slotOf, p.data, InOrder(cs, data, |cs|));
  }

  lemma AgreeEverywhere(slotOf: string -> nat, a: Data, b: Data)
    requires forall slot :: Agree(slotOf, slot, a, b)
    ensures a == b
  {
    forall k ensures (k in a <==> k in b) && (k in a ==> a[k] == b[k]) {
      assert Agree(slotOf, slotOf(k), a, b);
    }
  }

  // ---------------------------------------------------------------- every schedule

  /** A schedule names the worker that moves at each step; one that cannot move does nothing. */
  function Play(cs: seq<Command>, gs: seq<Group>, p: Pool, schedule: seq<nat>): (p': Pool)
    requires Shaped(cs, gs, p)
    ensures Shaped(cs, gs, p') && |p'.workers| == |p.workers|
    decreases |schedule|
  {
    if schedule == [] then p else Play(cs, gs, Step(cs, gs, p, schedule[0]), schedule[1..])
  }

  lemma {:induction false} PlayKeeps(slotOf: string -> nat, cs: seq<Command>, gs: seq<Group>, data: Data, p: Pool,
                                     schedule: seq<nat>)
    requires Invariant(slotOf, cs, gs, data, p) && Groups(cs, |cs|, gs) && AllLocal(slotOf, cs)
    ensures Invariant(slotOf, cs, gs, data, Play(cs, gs, p, schedule))
    decreases |schedule|
  {
    if schedule != [] {
      InvariantStep(slotOf, cs, gs, data, p, schedule[0]);
      PlayKeeps(slotOf, cs, gs, data, Step(cs, gs, p, schedule[0]), schedule[1..]);
    }
  }

  function Running(workers: seq<Worker>): set<nat> {
    if workers == [] then {}
    else Running(workers[..|workers| - 1])
         + (if workers[|workers| - 1].Busy? then {workers[|workers| - 1].group} else {})
  }

  lemma {:induction false} RunningBound(workers: seq<Worker>)
    ensures |Running(workers)| <= |workers|
    ensures forall g :: g in Running(workers) <==> Busy(g) in workers
  {
    if workers != [] {
      var init, last := workers[..|workers| - 1], workers[|workers| - 1];
      assert workers == init + [last];
      RunningBound(init);
    }
  }

  /**
   * Whatever the interleaving: never more than `concurrency` pipelines run at once, a result once written
   * is the in-order result, and when all workers are done the results and the data are those in order.
   */
  lemma EveryScheduleIsSequential(slotOf: string -> nat, cs: seq<Command>, gs: seq<Group>, data: Data,
                                  concurrency: int, schedule: seq<nat>)
    requires Groups(cs, |cs|, gs) && AllLocal(slotOf, cs)
    ensures var p := Play(cs, gs, Start(cs, gs, data, concurrency), schedule);
      && |Running(p.workers)| <= Max(1, concurrency)
      && (forall i | 0 <= i < |cs| :: p.results[i].Some? ==> p.results[i] == Some(OutcomeInOrder(cs, data, i)))
      && (AllFinished(p) ==>
            && p.data == InOrder(cs, data, |cs|)
            && (forall i | 0 <= i < |cs| :: p.results[i] == Some(OutcomeInOrder(cs, data, i))))
  {
    var start := Start(cs, gs, data, concurrency);
    var p := Play(cs, gs, start, schedule);
    StartFits(slotOf, cs, gs, data, concurrency);
    PlayKeeps(slotOf, cs, gs, data, start, schedule);
    RunningBound(p.workers);
    forall i | 0 <= i < |cs| && p.results[i].Some? ensures p.results[i] == Some(OutcomeInOrder(cs, data, i)) {
      ResultIsInOrder(slotOf, cs, gs, data, p, i);
    }
    if AllFinished(p) {
      FinishedMeansInOrder(slotOf, cs, gs, data, p);
    }
  }

  lemma ResultIsInOrder(slotOf: string -> nat, cs: seq<Command>, gs: seq<Group>, data: Data, p: Pool, i: nat)
    requires Invariant(slotOf, cs, gs, data, p) && Groups(cs, |cs|, gs) && i < |cs|
    ensures p.results[i].Some? ==> p.results[i] == Some(OutcomeInOrder(cs, data, i))
  {
    assert HasSlot(gs, cs[i].slot);
    var g :| 0 <= g < |gs| && gs[g].slot == cs[i].slot;
    IndexesComplete(cs, |cs|, i);
    var q :| 0 <= q < |gs[g].indexes| && gs[g].indexes[q] == i;
  }

  /** Worker w holds a pipeline whose replies are all in. */
  predicate Reports(gs: seq<Group>, p: Pool, w: nat)
    requires |p.replies| == |gs|
  {
    && w < |p.workers| && p.workers[w].Busy? && p.workers[w].group < |gs|
    && |p.replies[p.workers[w].group]| == |gs[p.workers[w].group].indexes|
  }

  /** Reporting a pipeline writes only results that were still empty, so each is written once. */
  lemma ReportedOnce(slotOf: string -> nat, cs: seq<Command>, gs: seq<Group>, data: Data, p: Pool, w: nat, i: nat)
    requires Invariant(slotOf, cs, gs, data, p) && Groups(cs, |cs|, gs) && i < |cs|
    ensures p.results[i].Some? ==> Step(cs, gs, p, w).results[i] == p.results[i]
    ensures Reports(gs, p, w) && i in gs[p.workers[w].group].indexes ==> p.results[i].None?
  {
    if Reports(gs, p, w) {
      var g := p.workers[w].group;
      assert p.workers[w] == Busy(g) && !Reported(p, g);
      IndexesAscend(cs, |cs|, gs[g].slot);
      FillAt(p.results, gs[g].indexes, p.replies[g], i);
    }
  }

  // ---------------------------------------------------------------- it finishes

  function Sum(s: seq<int>): int {
    if s == [] then 0 else Sum(s[..|s| - 1]) + s[|s| - 1]
  }

  lemma {:induction false} SumUpdate(s: seq<int>, i: nat, v: int)
    requires i < |s|
    ensures Sum(s[i := v]) == Sum(s) - s[i] + v
  {
    if i == |s| - 1 {
      assert s[i := v][..i] == s[..i];
    } else {
      SumUpdate(s[..|s| - 1], i, v);
      assert s[i := v][..|s| - 1] == s[..|s| - 1][i := v];
    }
  }

  lemma {:induction false} SumNonNegative(s: seq<int>)
    requires forall i | 0 <= i < |s| :: s[i] >= 0
    ensures Sum(s) >= 0
  {
    if s != [] {
      SumNonNegative(s[..|s| - 1]);
    }
  }

  function Unanswered(gs: seq<Group>, p: Pool): seq<int>
    requires |p.replies| == |gs|
  {
    seq(|gs|, g requires 0 <= g < |gs| => |gs[g].indexes| - |p.replies[g]|)
  }

  function Loads(p: Pool): seq<int> {
    seq(|p.workers|, w requires 0 <= w < |p.workers| =>
      match p.workers[w] case Finished => 0 case Ready => 1 case Busy(_) => 2)
  }

  /** How much is left to do. */
  function Work(cs: seq<Command>, gs: seq<Group>, p: Pool): int
    requires Shaped(cs, gs, p)
  {
    Sum(Unanswered(gs, p)) + Sum(Loads(p)) + 2 * (|gs| - p.cursor)
  }

  /** Every step of a worker that has not finished leaves one unit less, so a pool cannot run forever. */
  lemma WorkShrinks(cs: seq<Command>, gs: seq<Group>, p: Pool, w: nat)
    requires Shaped(cs, gs, p) && w < |p.workers| && !p.workers[w].Finished? && p.cursor <= |gs|
    ensures Work(cs, gs, Step(cs, gs, p, w)) == Work(cs, gs, p) - 1 >= 0
  {
    var p' := Step(cs, gs, p, w);
    SumUpdate(Loads(p), w, Loads(p')[w]);
    assert Loads(p') == Loads(p)[w := Loads(p')[w]];
    if p.workers[w].Busy? {
      var g := p.workers[w].group;
      SumUpdate(Unanswered(gs, p), g, Unanswered(gs, p')[g]);
      assert Unanswered(gs, p') == Unanswered(gs, p)[g := Unanswered(gs, p')[g]];
    } else {
      assert Unanswered(gs, p') == Unanswered(gs, p);
    }
    SumNonNegative(Unanswered(gs, p'));
    SumNonNegative(Loads(p'));
  }

  // ---------------------------------------------------------------- the call itself

  /** The loop of runSlotPipeline over the replies of a pipeline. */
  method Report(results: array<Option<Outcome>>, js: seq<nat>, raw: seq<Outcome>)
    requires |js| == |raw| && forall p | 0 <= p < |js| :: js[p] < results.Length
    modifies results
    ensures results[..] == Fill(old(results[..]), js, raw)
  {
    for i := 0 to |js|
      invariant results[..] == Fill(old(results[..]), js[..i], raw[..i])
    {
      assert js[..i + 1][..i] == js[..i] && raw[..i + 1][..i] == raw[..i];
      results[js[i]] := Some(raw[i]);
    }
    assert js[..|js|] == js && raw[..|raw|] == raw;
  }

  /** What worker w does until it next waits for the server. */
  method Turn(cs: seq<Command>, gs: seq<Group>, p: Pool, results: array<Option<Outcome>>, w: nat) returns (p': Pool)
    requires Shaped(cs, gs, p) && results[..] == p.results && w < |p.workers| && !p.workers[w].Finished?
    modifies results
    ensures p' == Step(cs, gs, p, w) && results[..] == p'.results
  {
    var cursor, workers, replies, data := p.cursor, p.workers, p.replies, p.data;
    if workers[w].Ready? {
      if cursor < |gs| {
        workers := workers[w := Busy(cursor)];
        cursor := cursor + 1;
      } else {
        workers := workers[w := Finished];
      }
    } else {
      var g := workers[w].group;
      var done := |replies[g]|;
      if done < |gs[g].indexes| {
        var (now, outcome) := cs[gs[g].indexes[done]].run(data);
        data := now;
        replies := replies[g := replies[g] + [outcome]];
      } else {
        Report(results, gs[g].indexes, replies[g]);
        workers := workers[w := Ready];
      }
    }
    p' := Pool(cursor, workers, replies, data, results[..]);
  }

  /**
   * executeBySlot: the next step is taken by any worker that has not finished. Always ends, with one
   * result per command, in input order, and the data as if the batch had run in order.
   */
  method ExecuteBySlot(ghost slotOf: string -> nat, cs: seq<Command>, data: Data, concurrency: int)
    returns (out: seq<Option<Outcome>>, after: Data)
    requires AllLocal(slotOf, cs)
    ensures |out| == |cs| && forall i | 0 <= i < |cs| :: out[i] == Some(OutcomeInOrder(cs, data, i))
    ensures after == InOrder(cs, data, |cs|)
  {
    if |cs| == 0 {
      return [], data;
    }
    var results := new Option<Outcome>[|cs|](_ => None);
    var gs := GroupBySlot(cs);
    var p := Start(cs, gs, data, concurrency);
    StartFits(slotOf, cs, gs, data, concurrency);
    assert HasSlot(gs, cs[0].slot);
    while exists w | 0 <= w < |p.workers| :: !p.workers[w].Finished?
      invariant |p.workers| >= 1 && results[..] == p.results
      invariant Invariant(slotOf, cs, gs, data, p)
      decreases Work(cs, gs, p)
    {
      var w :| 0 <= w < |p.workers| && !p.workers[w].Finished?;
      InvariantStep(slotOf, cs, gs, data, p, w);
      WorkShrinks(cs, gs, p, w);
      p := Turn(cs, gs, p, results, w);
    }
    FinishedMeansInOrder(slotOf, cs, gs, data, p);
    return p.results, p.data;
  }
}
