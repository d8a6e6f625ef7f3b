/** What every step and every complete run of the gate scheduler guarantees. */
module GateRuns {
  import opened Wrappers
  import opened Graphs
  import opened GateGraph
  import opened GateSchedule

  // ---------------------------------------------------------------- settled states never change

  ghost predicate KeepsSettled(b: Board, b': Board) {
    && (forall id :: GateSettled(b.states, id) ==> id in b'.states && b'.states[id] == b.states[id])
    && (forall id :: id in b.results ==> id in b'.results && b'.results[id] == b.results[id])
  }

  lemma ReadinessPersists(b: Board, b': Board, g: Gate)
    requires KeepsSettled(b, b') && PredecessorsReady(g, b.states)
    ensures PredecessorsReady(g, b'.states)
  {
  }

  lemma EvidencePersists(c: Config, b: Board, b': Board, g: Gate)
    requires KeepsSettled(b, b') && g.id in b.results && Justified(c, b, g)
    ensures g.id in b'.results && Justified(c, b', g)
  {
  }

  lemma StepKeepsSettled(c: Config, s: Scheduler, e: Event)
    requires Invariant(c, s) && Allowed(c, s, e)
    ensures KeepsSettled(s.board, Apply(s, e).board)
  {
    if e.Finished? {
      assert s.running[e.slot] in s.running;
    }
  }

  // ---------------------------------------------------------------- the step invariant

  lemma InitialInvariant(c: Config)
    requires c.maxActive >= 1
    ensures Invariant(c, Initial(c.gates))
  {
  }

  lemma RecordKeepsBooked(b: Board, id: Id, r: GateResult)
    requires Booked(b)
    ensures Booked(Record(b, id, r))
  {
  }

  /** Recording a justified result justifies the whole board again. */
  lemma RecordKeepsJustified(c: Config, b: Board, g: Gate, r: GateResult)
    requires UniqueIds(c.gates) && g in c.gates
    requires AllJustified(c, b) && KeepsSettled(b, Record(b, g.id, r))
    requires Justified(c, Record(b, g.id, r), g)
    ensures AllJustified(c, Record(b, g.id, r))
  {
    var b' := Record(b, g.id, r);
    forall h | h in c.gates && h.id in b'.results ensures Justified(c, b', h) {
      if h != g {
        EvidencePersists(c, b, b', h);
      }
    }
  }

  lemma StartRunsExactly(gates: seq<Gate>, states: States, running: seq<Gate>, g: Gate)
    requires UniqueIds(gates) && RunsExactly(gates, states, running)
    requires g in gates && Startable(g, states)
    ensures RunsExactly(gates, states[g.id := Running], running + [g])
  {
    var states' := states[g.id := Running];
    forall h | h in running + [g] ensures PredecessorsReady(h, states') {
      assert PredecessorsReady(h, states);
    }
  }

  lemma StartKeepsInvariant(c: Config, s: Scheduler, g: Gate)
    requires UniqueIds(c.gates) && Invariant(c, s) && Allowed(c, s, Started(g))
    ensures Invariant(c, Apply(s, Started(g)))
  {
    var s' := Apply(s, Started(g));
    StepKeepsSettled(c, s, Started(g));
    StartRunsExactly(c.gates, s.board.states, s.running, g);
    forall h | h in c.gates && h.id in s'.board.results ensures Justified(c, s'.board, h) {
      EvidencePersists(c, s.board, s'.board, h);
    }
  }

  lemma WithoutSlotMembers(running: seq<Gate>, slot: nat)
    requires slot < |running|
    requires forall i, j :: 0 <= i < j < |running| ==> running[i].id != running[j].id
    ensures forall g :: g in WithoutSlot(running, slot) <==> g in running && g != running[slot]
    ensures forall i, j :: 0 <= i < j < |running| - 1 ==>
      WithoutSlot(running, slot)[i].id != WithoutSlot(running, slot)[j].id
  {
    forall g | g in running && g != running[slot] ensures g in WithoutSlot(running, slot) {
      var i :| 0 <= i < |running| && running[i] == g;
      assert WithoutSlot(running, slot)[if i < slot then i else i - 1] == g;
    }
  }

  lemma FinishKeepsInvariant(c: Config, s: Scheduler, slot: nat, r: GateResult)
    requires UniqueIds(c.gates) && Invariant(c, s) && Allowed(c, s, Finished(slot, r))
    ensures Invariant(c, Apply(s, Finished(slot, r)))
  {
    var s' := Apply(s, Finished(slot, r));
    var done := s.running[slot];
    assert done in s.running;
    WithoutSlotMembers(s.running, slot);
    StepKeepsSettled(c, s, Finished(slot, r));
    forall h | h in s.running ensures PredecessorsReady(h, s'.board.states) {
      ReadinessPersists(s.board, s'.board, h);
    }
    RecordKeepsBooked(s.board, done.id, r);
    RecordKeepsJustified(c, s.board, done, r);
  }

  lemma SkipIsJustified(c: Config, b: Board, g: Gate)
    requires Blocked(g, b.states) && KeepsSettled(b, Record(b, g.id, SkipResult(g, b.states)))
    ensures Justified(c, Record(b, g.id, SkipResult(g, b.states)), g)
  {
    var d :| d in g.needs && GateFailed(b.states, d);
    assert d in FailedAmong(g.needs, b.states);
  }

  lemma SkipKeepsInvariant(c: Config, s: Scheduler, r: GateResult)
    requires UniqueIds(c.gates) && Invariant(c, s) && Allowed(c, s, SkippedOver(r))
    ensures Invariant(c, Apply(s, SkippedOver(r)))
  {
    var s' := Apply(s, SkippedOver(r));
    StepKeepsSettled(c, s, SkippedOver(r));
    SkipIsJustified(c, s.board, r.gate);
    RecordKeepsBooked(s.board, r.gate.id, r);
    RecordKeepsJustified(c, s.board, r.gate, r);
    assert RunsExactly(c.gates, s'.board.states, []);
  }

  lemma StepKeepsInvariant(c: Config, s: Scheduler, e: Event)
    requires UniqueIds(c.gates) && Invariant(c, s) && Allowed(c, s, e)
    ensures Invariant(c, Apply(s, e))
  {
    match e
    case Started(g) => StartKeepsInvariant(c, s, g);
    case Finished(slot, r) => FinishKeepsInvariant(c, s, slot, r);
    case SkippedOver(r) => SkipKeepsInvariant(c, s, r);
  }

  /**
   * In every reachable state: at most `maxActive` gates run; each running gate has all its needs
   * passed and all its `after` settled; each settled gate either met that condition and carries
   * its executor's report, or was skipped and names failed needs.
   */
  lemma {:induction false} ReachableInvariant(c: Config, events: seq<Event>)
    requires UniqueIds(c.gates) && c.maxActive >= 1
    requires Legal(c, events)
    ensures Invariant(c, After(c, events))
  {
    if events == [] {
      InitialInvariant(c);
    } else {
      var before := events[..|events| - 1];
      ReachableInvariant(c, before);
      StepKeepsInvariant(c, After(c, before), events[|events| - 1]);
    }
  }

  /** A state settled at some point of a run has the same status and result ever after. */
  lemma {:induction false} SettledNeverChanges(c: Config, events: seq<Event>, n: nat)
    requires UniqueIds(c.gates) && c.maxActive >= 1
    requires Legal(c, events) && n <= |events|
    ensures KeepsSettled(After(c, events[..n]).board, After(c, events).board)
  {
    if n == |events| {
      assert events[..n] == events;
    } else {
      var before := events[..|events| - 1];
      SettledNeverChanges(c, before, n);
      assert before[..n] == events[..n];
      ReachableInvariant(c, before);
      StepKeepsSettled(c, After(c, before), events[|events| - 1]);
    }
  }

  // ---------------------------------------------------------------- termination

  ghost function Work(s: Scheduler): nat {
    2 * |PendingIds(s.board.states)| + |s.running|
  }

  lemma StartShrinksPending(states: States, id: Id)
    requires IsPending(states, id)
    ensures id in PendingIds(states)
    ensures PendingIds(states[id := Running]) == PendingIds(states) - {id}
  {
  }

  lemma FinishKeepsPending(b: Board, id: Id, r: GateResult)
    requires id in b.states && !b.states[id].Pending?
    ensures PendingIds(Record(b, id, r).states) == PendingIds(b.states)
  {
  }

  lemma StepDoesWork(c: Config, s: Scheduler, e: Event)
    requires UniqueIds(c.gates) && Invariant(c, s) && Allowed(c, s, e)
    ensures Work(Apply(s, e)) < Work(s)
  {
    match e
    case Started(g) =>
      StartShrinksPending(s.board.states, g.id);
    case Finished(slot, r) =>
      assert s.running[slot] in s.running;
      FinishKeepsPending(s.board, s.running[slot].id, r);
    case SkippedOver(r) =>
      RecordShrinksPending(s.board, r.gate.id, r);
  }

  /** No run takes more than two steps per gate. */
  lemma {:induction false} RunsAreShort(c: Config, events: seq<Event>)
    requires UniqueIds(c.gates) && c.maxActive >= 1
    requires Legal(c, events)
    ensures |events| + Work(After(c, events)) <= 2 * |Ids(c.gates)|
  {
    if events == [] {
      assert PendingIds(Initial(c.gates).board.states) == Ids(c.gates);
    } else {
      var before := events[..|events| - 1];
      RunsAreShort(c, before);
      ReachableInvariant(c, before);
      StepDoesWork(c, After(c, before), events[|events| - 1]);
    }
  }

  // ---------------------------------------------------------------- no stall

  /** With nothing running, an unfinished board of a valid graph always offers a start or a skip. */
  lemma NeverStuckIdle(gates: seq<Gate>, b: Board)
    requires ValidGraph(gates)
    requires b.states.Keys == Ids(gates)
    requires forall id :: id in b.states ==> !b.states[id].Running?
    requires PendingIds(b.states) != {}
    ensures FirstStartable(gates, b.states).Some? || FirstBlocked(gates, b.states).Some?
  {
    var m := MinimalMember(PredecessorGraph(gates), PendingIds(b.states));
    var g :| g in gates && g.id == m;
    PredecessorGraphEntry(gates, g);
    forall d | d in g.needs || d in g.after ensures GateSettled(b.states, d) {
      assert d in g.needs + g.after;
      assert d !in PendingIds(b.states);
    }
    if !Startable(g, b.states) {
      assert Blocked(g, b.states);
    }
  }

  lemma LegalExtends(c: Config, events: seq<Event>, e: Event)
    requires Legal(c, events) && Allowed(c, After(c, events), e)
    ensures Legal(c, events + [e])
    ensures After(c, events + [e]) == Apply(After(c, events), e)
  {
    assert (events + [e])[..|events|] == events;
  }

  /** Every reachable state of a valid graph is complete or has a next step. */
  lemma NoStall(c: Config, events: seq<Event>)
    requires ValidGraph(c.gates) && c.maxActive >= 1
    requires Legal(c, events) && !Complete(After(c, events))
    ensures exists e :: Legal(c, events + [e])
  {
    var s := After(c, events);
    ReachableInvariant(c, events);
    var ready := FirstStartable(c.gates, s.board.states);
    var e: Event;
    if ready.Some? && |s.running| < c.maxActive {
      e := Started(ready.value);
    } else if s.running != [] {
      e := Finished(0, c.execute(s.running[0]));
    } else {
      NeverStuckIdle(c.gates, s.board);
      var g := FirstBlocked(c.gates, s.board.states).value;
      e := SkippedOver(SkipResult(g, s.board.states));
    }
    LegalExtends(c, events, e);
  }

  // ---------------------------------------------------------------- confluence

  /** Draining touches the running gates only. */
  lemma {:induction false} DrainElsewhere(execute: Gate -> GateResult, b: Board, running: seq<Gate>, id: Id)
    requires forall g :: g in running ==> g.id != id
    ensures id in Drain(execute, b, running).states <==> id in b.states
    ensures id in b.states ==> Drain(execute, b, running).states[id] == b.states[id]
  {
    if running == [] {
    } else {
      DrainElsewhere(execute, b, running[..|running| - 1], id);
    }
  }

  /** A record about a gate that is not running can be made before or after draining. */
  lemma {:induction false} DrainThenRecord(execute: Gate -> GateResult, b: Board, running: seq<Gate>, id: Id,
          r: GateResult)
    requires forall g :: g in running ==> g.id != id
    ensures Drain(execute, Record(b, id, r), running) == Record(Drain(execute, b, running), id, r)
  {
    if running == [] {
    } else {
      var front, last := running[..|running| - 1], running[|running| - 1];
      DrainThenRecord(execute, b, front, id, r);
      RecordsCommute(Drain(execute, b, front), id, r, last.id, execute(last));
    }
  }

  lemma WithoutLast(running: seq<Gate>)
    requires running != []
    ensures WithoutSlot(running, |running| - 1) == running[..|running| - 1]
  {
  }

  lemma WithoutEarlier(running: seq<Gate>, slot: nat)
    requires slot < |running| - 1
    ensures WithoutSlot(running, slot) == WithoutSlot(running[..|running| - 1], slot) + [running[|running| - 1]]
  {
  }

  lemma DrainAppends(execute: Gate -> GateResult, b: Board, front: seq<Gate>, last: Gate)
    ensures Drain(execute, b, front + [last]) == Record(Drain(execute, b, front), last.id, execute(last))
  {
    assert (front + [last])[..|front|] == front;
  }

  /** The order in which running gates settle does not matter to the drained board. */
  lemma {:induction false} DrainOfFinish(execute: Gate -> GateResult, b: Board, running: seq<Gate>, slot: nat)
    requires slot < |running|
    requires forall i, j :: 0 <= i < j < |running| ==> running[i].id != running[j].id
    ensures Drain(execute, Record(b, running[slot].id, execute(running[slot])), WithoutSlot(running, slot))
         == Drain(execute, b, running)
  {
    var front, last, done := running[..|running| - 1], running[|running| - 1], running[slot];
    if slot == |running| - 1 {
      WithoutLast(running);
      DrainThenRecord(execute, b, front, done.id, execute(done));
    } else {
      DrainOfFinish(execute, b, front, slot);
      WithoutEarlier(running, slot);
      DrainAppends(execute, Record(b, done.id, execute(done)), WithoutSlot(front, slot), last);
    }
  }

  /** Marking a gate as running is forgotten once a result is recorded for it. */
  lemma MarkIsOverwritten(b: Board, id: Id, r: GateResult)
    ensures Record(b.(states := b.states[id := Running]), id, r) == Record(b, id, r)
  {
    assert b.states[id := Running][id := Settled(r.status)] == b.states[id := Settled(r.status)];
  }

  lemma DrainOfStart(c: Config, s: Scheduler, g: Gate)
    requires UniqueIds(c.gates) && Invariant(c, s) && Allowed(c, s, Started(g))
    ensures var s' := Apply(s, Started(g));
      Drain(c.execute, s'.board, s'.running) == Record(Drain(c.execute, s.board, s.running), g.id, c.execute(g))
    ensures Startable(g, Drain(c.execute, s.board, s.running).states)
  {
    var s' := Apply(s, Started(g));
    var drained := Drain(c.execute, s.board, s.running);
    forall h | h in s.running ensures h.id != g.id {
    }
    assert s'.running[..|s'.running| - 1] == s.running;
    DrainThenRecord(c.execute, s'.board, s.running, g.id, c.execute(g));
    MarkIsOverwritten(s.board, g.id, c.execute(g));
    DrainThenRecord(c.execute, s.board, s.running, g.id, c.execute(g));
    DrainElsewhere(c.execute, s.board, s.running, g.id);
    forall d | d in g.needs || d in g.after ensures d in drained.states && drained.states[d] == s.board.states[d] {
      DrainElsewhere(c.execute, s.board, s.running, d);
    }
  }

  /** Where the reference run would end if it took over once the running gates have settled. */
  ghost function Destination(c: Config, s: Scheduler): Option<map<Id, GateResult>> {
    OneWorker(c.gates, c.execute, Drain(c.execute, s.board, s.running))
  }

  ghost function Reference(c: Config): Option<map<Id, GateResult>> {
    OneWorker(c.gates, c.execute, Initial(c.gates).board)
  }

  /** No step, in whatever order gates settle, changes where the reference run would end. */
  lemma StepKeepsDestination(c: Config, s: Scheduler, e: Event)
    requires UniqueIds(c.gates) && Invariant(c, s) && Allowed(c, s, e)
    ensures Invariant(c, Apply(s, e))
    ensures Destination(c, Apply(s, e)) == Destination(c, s)
  {
    StepKeepsInvariant(c, s, e);
    match e
    case Started(g) =>
      DrainOfStart(c, s, g);
      AnyStartableFirst(c.gates, c.execute, Drain(c.execute, s.board, s.running), g);
    case Finished(slot, r) =>
      DrainOfFinish(c.execute, s.board, s.running, slot);
    case SkippedOver(r) =>
      assert r.gate.id in PendingIds(s.board.states);
  }

  lemma {:induction false} RunKeepsDestination(c: Config, events: seq<Event>)
    requires UniqueIds(c.gates) && c.maxActive >= 1
    requires Legal(c, events)
    ensures Invariant(c, After(c, events))
    ensures Destination(c, After(c, events)) == Reference(c)
  {
    ReachableInvariant(c, events);
    if events == [] {
    } else {
      var before := events[..|events| - 1];
      RunKeepsDestination(c, before);
      StepKeepsDestination(c, After(c, before), events[|events| - 1]);
    }
  }

  /** Every complete run ends with the results of the one-worker run, skip reasons included. */
  lemma CompleteRunMatchesReference(c: Config, events: seq<Event>)
    requires UniqueIds(c.gates) && c.maxActive >= 1
    requires Legal(c, events) && Complete(After(c, events))
    ensures Reference(c) == Some(After(c, events).board.results)
  {
    RunKeepsDestination(c, events);
  }

  /** Confluence: neither the concurrency bound nor the completion order shows in the results. */
  lemma Confluence(c1: Config, c2: Config, events1: seq<Event>, events2: seq<Event>)
    requires UniqueIds(c1.gates) && c1.maxActive >= 1 && c2.maxActive >= 1
    requires c1.gates == c2.gates && c1.execute == c2.execute
    requires Legal(c1, events1) && Complete(After(c1, events1))
    requires Legal(c2, events2) && Complete(After(c2, events2))
    ensures After(c1, events1).board.results == After(c2, events2).board.results
  {
    CompleteRunMatchesReference(c1, events1);
    CompleteRunMatchesReference(c2, events2);
  }

  // ---------------------------------------------------------------- the status equation

  ghost predicate NeedsPassed(g: Gate, results: map<Id, GateResult>) {
    forall d :: d in g.needs ==> d in results && results[d].status == Passed
  }

  /** A gate was executed iff all its needs passed; otherwise it was skipped. */
  ghost predicate Solves(c: Config, results: map<Id, GateResult>) {
    && results.Keys == Ids(c.gates)
    && (forall g :: g in c.gates && NeedsPassed(g, results) ==> results[g.id] == c.execute(g))
    && (forall g :: g in c.gates && !NeedsPassed(g, results) ==>
      results[g.id].gate == g && results[g.id].status == Skipped)
  }

  lemma SettledGateSolves(c: Config, s: Scheduler, g: Gate)
    requires Invariant(c, s) && g in c.gates && g.id in s.board.results
    ensures NeedsPassed(g, s.board.results) ==> s.board.results[g.id] == c.execute(g)
    ensures !NeedsPassed(g, s.board.results) ==>
      s.board.results[g.id].gate == g && s.board.results[g.id].status == Skipped
  {
    var b := s.board;
    assert Justified(c, b, g);
    if SkipEvidence(b, g, b.results[g.id]) {
      var d := b.results[g.id].blockers[0];
      assert d in b.results[g.id].blockers;
      assert b.results[d].status != Passed;
    }
  }

  lemma CompleteRunSolvesEquation(c: Config, events: seq<Event>)
    requires UniqueIds(c.gates) && c.maxActive >= 1
    requires Legal(c, events) && Complete(After(c, events))
    ensures Solves(c, After(c, events).board.results)
  {
    ReachableInvariant(c, events);
    var s := After(c, events);
    assert forall id :: id in s.board.states ==> id !in PendingIds(s.board.states);
    assert forall g :: g in c.gates ==> !s.board.states[g.id].Running?;
    forall g | g in c.gates
      ensures g.id in s.board.results
      ensures NeedsPassed(g, s.board.results) ==> s.board.results[g.id] == c.execute(g)
      ensures !NeedsPassed(g, s.board.results) ==>
        s.board.results[g.id].gate == g && s.board.results[g.id].status == Skipped
    {
      SettledGateSolves(c, s, g);
    }
  }

  lemma SolutionsAgreeAfterNeeds(c: Config, r1: map<Id, GateResult>, r2: map<Id, GateResult>, g: Gate)
    requires Solves(c, r1) && Solves(c, r2) && g in c.gates
    requires forall d :: d in g.needs ==> d in r1 && d in r2 && r1[d].status == r2[d].status
    ensures g.id in r1 && g.id in r2 && r1[g.id].status == r2[g.id].status
  {
    assert NeedsPassed(g, r1) == NeedsPassed(g, r2);
  }

  /** On an acyclic graph the equation has one solution for the statuses. */
  lemma EquationHasOneSolution(c: Config, r1: map<Id, GateResult>, r2: map<Id, GateResult>)
    requires ValidGraph(c.gates)
    requires Solves(c, r1) && Solves(c, r2)
    ensures forall id :: id in Ids(c.gates) ==> r1[id].status == r2[id].status
  {
    var differ := set id | id in r1 && id in r2 && r1[id].status != r2[id].status;
    if differ == {} {
      forall id | id in r1 && id in r2 ensures r1[id].status == r2[id].status {
        assert id !in differ;
      }
    } else {
      var m := MinimalMember(PredecessorGraph(c.gates), differ);
      var g :| g in c.gates && g.id == m;
      PredecessorGraphEntry(c.gates, g);
      forall d | d in g.needs ensures d in r1 && d in r2 && r1[d].status == r2[d].status {
        assert d in Preds(PredecessorGraph(c.gates), m);
        assert d in Ids(c.gates) && d !in differ;
      }
      SolutionsAgreeAfterNeeds(c, r1, r2, g);
    }
  }
}
