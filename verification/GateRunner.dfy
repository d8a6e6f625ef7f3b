/** The scheduling loop itself, run against the transition system. */
module GateRunner {
  import opened Wrappers
  import opened Graphs
  import opened GateGraph
  import opened GateSchedule
  import opened GateRuns
  import opened GateLogs

  const MAX_SAFE_INTEGER := 9007199254740991

  /** How a call ends: a rejected argument, one of the two internal throws, or the results. */
  datatype Outcome =
    | InvalidGraph(error: GraphError)
    | BadConcurrency
    | Stalled
    | MissingResult(id: Id)
    | Results(results: seq<GateResult>)

  /** The results of the one-worker run, in aggregate order. */
  ghost predicate InAggregateOrder(c: Config, results: seq<GateResult>) {
    && Reference(c).Some?
    && |results| == |c.gates|
    && forall i :: 0 <= i < |c.gates| ==>
      c.gates[i].id in Reference(c).value && results[i] == Reference(c).value[c.gates[i].id]
  }

  /** The state handed to the next round is the state the log has reached. */
  ghost predicate Tracks(c: Config, events: seq<Event>, s: Scheduler) {
    Legal(c, events) && After(c, events) == s && Invariant(c, s)
  }

  lemma TracksStep(c: Config, events: seq<Event>, s: Scheduler, e: Event)
    requires UniqueIds(c.gates) && Tracks(c, events, s) && Allowed(c, s, e)
    ensures Tracks(c, events + [e], Apply(s, e))
    ensures Work(Apply(s, e)) < Work(s)
  {
    LegalExtends(c, events, e);
    StepKeepsInvariant(c, s, e);
    StepDoesWork(c, s, e);
  }

  lemma NothingPending(gates: seq<Gate>, states: States)
    requires states.Keys == Ids(gates)
    requires forall g :: g in gates ==> !IsPending(states, g.id)
    ensures PendingIds(states) == {}
  {
    forall id | id in states ensures !IsPending(states, id) {
      var g :| g in gates && g.id == id;
    }
  }

  lemma SomethingPending(gates: seq<Gate>, states: States)
    requires exists g :: g in gates && IsPending(states, g.id)
    ensures PendingIds(states) != {}
  {
    var g :| g in gates && IsPending(states, g.id);
    assert g.id in PendingIds(states);
  }

  ghost predicate AllHave(gates: seq<Gate>, results: map<Id, GateResult>) {
    forall g :: g in gates ==> g.id in results
  }

  /** The first gate, in aggregate order, that has no result. */
  ghost predicate FirstWithout(gates: seq<Gate>, results: map<Id, GateResult>, id: Id) {
    exists n :: 0 <= n < |gates| && gates[n].id == id && id !in results && AllHave(gates[..n], results)
  }

  /** Once complete, every gate has its result, and it is the reference's. */
  lemma CompleteMatches(c: Config, events: seq<Event>, s: Scheduler)
    requires UniqueIds(c.gates) && c.maxActive >= 1
    requires Tracks(c, events, s) && Complete(s)
    ensures AllHave(c.gates, s.board.results)
    ensures Reference(c) == Some(s.board.results)
  {
    CompleteRunMatchesReference(c, events);
    forall g | g in c.gates ensures g.id in s.board.results {
      assert g.id !in PendingIds(s.board.states);
      assert g !in s.running;
    }
  }

  /** The inner loop: start gates until the bound is reached or none is ready. */
  method StartReady(gates: seq<Gate>, maxActive: int, ghost c: Config, before: Scheduler, log: seq<Event>)
    returns (s: Scheduler, events: seq<Event>, madeProgress: bool)
    requires c.gates == gates && c.maxActive == maxActive && UniqueIds(gates)
    requires Tracks(c, log, before)
    ensures Tracks(c, events, s)
    ensures |s.running| >= maxActive || FirstStartable(gates, s.board.states).None?
    ensures if madeProgress then Work(s) < Work(before) else s == before
  {
    s, events, madeProgress := before, log, false;
    while |s.running| < maxActive
      invariant Tracks(c, events, s)
      invariant if madeProgress then Work(s) < Work(before) else s == before
      decreases Work(s)
    {
      var ready := FirstStartable(gates, s.board.states);
      if ready.None? {
        break;
      }
      TracksStep(c, events, s, Started(ready.value));
      s := Scheduler(s.board.(states := s.board.states[ready.value.id := Running]), s.running + [ready.value]);
      events := events + [Started(ready.value)];
      madeProgress := true;
    }
  }

  /** With nothing running and nothing ready: finish, skip the first blocked gate, or throw. */
  method SkipBlocked(gates: seq<Gate>, ghost c: Config, before: Scheduler, log: seq<Event>)
    returns (s: Scheduler, events: seq<Event>, done: bool, stalled: bool)
    requires c.gates == gates && ValidGraph(gates)
    requires Tracks(c, log, before)
    requires before.running == [] && FirstStartable(gates, before.board.states).None?
    ensures !stalled
    ensures Tracks(c, events, s)
    ensures if done then s == before && events == log && Complete(s) else Work(s) < Work(before)
  {
    s, events, done, stalled := before, log, false, false;
    if forall g :: g in gates ==> !IsPending(s.board.states, g.id) {
      NothingPending(gates, s.board.states);
      done := true;
      return;
    }
    var blocked := FirstBlocked(gates, s.board.states);
    if blocked.None? {
      SomethingPending(gates, s.board.states);
      NeverStuckIdle(gates, s.board);
      assert false;
      stalled := true;
      return;
    }
    var result := SkipResult(blocked.value, s.board.states);
    TracksStep(c, log, before, SkippedOver(result));
    s := Scheduler(Record(s.board, blocked.value.id, result), s.running);
    events := events + [SkippedOver(result)];
  }

  /** Whichever executor promise settles first wins the race: the slot is arbitrary. */
  method AwaitOne(execute: Gate -> GateResult, ghost c: Config, before: Scheduler, log: seq<Event>)
    returns (s: Scheduler, events: seq<Event>)
    requires c.execute == execute && UniqueIds(c.gates)
    requires Tracks(c, log, before)
    requires before.running != []
    requires |before.running| >= c.maxActive || FirstStartable(c.gates, before.board.states).None?
    ensures Tracks(c, events, s)
    ensures Work(s) < Work(before)
  {
    var slot: nat :| slot < |before.running|;
    var settled := before.running[slot];
    var result := execute(settled);
    TracksStep(c, log, before, Finished(slot, result));
    s := Scheduler(Record(before.board, settled.id, result), WithoutSlot(before.running, slot));
    events := log + [Finished(slot, result)];
  }

  /** The results by gate, in aggregate order; throws at the first gate without one. */
  method CollectResults(gates: seq<Gate>, results: map<Id, GateResult>) returns (outcome: Outcome)
    ensures AllHave(gates, results) <==> outcome.Results?
    ensures outcome.Results? ==>
      && |outcome.results| == |gates|
      && forall i :: 0 <= i < |gates| ==> outcome.results[i] == results[gates[i].id]
    ensures !outcome.Results? ==> outcome.MissingResult? && FirstWithout(gates, results, outcome.id)
  {
    var ordered: seq<GateResult> := [];
    for n := 0 to |gates|
      invariant |ordered| == n
      invariant forall i :: 0 <= i < n ==> gates[i].id in results && ordered[i] == results[gates[i].id]
    {
      if gates[n].id !in results {
        assert AllHave(gates[..n], results);
        return MissingResult(gates[n].id);
      }
      ordered := ordered + [results[gates[n].id]];
    }
    outcome := Results(ordered);
  }

  /** The outer loop of an accepted call, up to the point where nothing is pending. */
  method Schedule(gates: seq<Gate>, maxActive: int, execute: Gate -> GateResult)
    returns (s: Scheduler, events: seq<Event>, stalled: bool)
    requires ValidGraph(gates) && maxActive >= 1
    ensures !stalled
    ensures Tracks(Config(gates, maxActive, execute), events, s) && Complete(s)
  {
    ghost var c := Config(gates, maxActive, execute);
    s, events, stalled := Initial(gates), [], false;
    InitialInvariant(c);
    var done := false;
    while !done
      invariant Tracks(c, events, s)
      invariant !stalled
      invariant done ==> Complete(s)
      decreases !done, Work(s)
    {
      var madeProgress;
      s, events, madeProgress := StartReady(gates, maxActive, c, s, events);
      if s.running == [] {
        s, events, done, stalled := SkipBlocked(gates, c, s, events);
        if stalled {
          return;
        }
      } else if !madeProgress {
        s, events := AwaitOne(execute, c, s, events);
      }
    }
  }

  /**
   * Rejects exactly the invalid arguments, before any event. Otherwise neither internal throw
   * happens, and whatever order the executor's promises settle in, the log is complete and keeps to
   * the rules, and the results are those of the one-worker run in aggregate order.
   */
  method RunGates(gates: seq<Gate>, maxActive: int, execute: Gate -> GateResult)
    returns (outcome: Outcome, events: seq<Event>)
    ensures outcome.InvalidGraph? <==> !ValidGraph(gates)
    ensures outcome.InvalidGraph? ==> Explains(gates, outcome.error)
    ensures outcome.BadConcurrency? <==> ValidGraph(gates) && !(1 <= maxActive <= MAX_SAFE_INTEGER)
    ensures outcome.InvalidGraph? || outcome.BadConcurrency? ==> events == []
    ensures ValidGraph(gates) && 1 <= maxActive <= MAX_SAFE_INTEGER ==>
      var c := Config(gates, maxActive, execute);
      && outcome.Results? && InAggregateOrder(c, outcome.results)
      && Legal(c, events) && Disciplined(c, events) && Complete(After(c, events))
  {
    var invalid := ValidateGateGraph(gates);
    if invalid.Some? {
      return InvalidGraph(invalid.value), [];
    }
    if !(1 <= maxActive <= MAX_SAFE_INTEGER) {
      return BadConcurrency, [];
    }
    var s, stalled;
    s, events, stalled := Schedule(gates, maxActive, execute);
    if stalled {
      return Stalled, events;
    }
    CompleteMatches(Config(gates, maxActive, execute), events, s);
    LegalIffDisciplined(Config(gates, maxActive, execute), events);
    outcome := CollectResults(gates, s.board.results);
  }
}
