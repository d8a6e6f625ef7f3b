/**
 * The bounded-concurrency gate scheduler as a transition system over its observable log, and
 * its reference: a single worker that never overlaps two gates.
 */
module GateSchedule {
  import opened Wrappers
  import opened Graphs
  import opened GateGraph

  datatype Status = Passed | Failed | Skipped

  datatype GateState = Pending | Running | Settled(status: Status)

  /** What is recorded for a gate: the executor's report, or a skip naming the failed needs. */
  datatype GateResult = GateResult(gate: Gate, status: Status, output: string, blockers: seq<Id>)

  type States = map<Id, GateState>

  /** Each gate's state, and the results recorded so far. */
  datatype Board = Board(states: States, results: map<Id, GateResult>)

  /** A board together with the gates whose executor has been called and has not settled. */
  datatype Scheduler = Scheduler(board: Board, running: seq<Gate>)

  /** The fixed inputs of one run. The executor is an arbitrary total function. */
  datatype Config = Config(gates: seq<Gate>, maxActive: int, execute: Gate -> GateResult)

  predicate HasPassed(states: States, id: Id) {
    id in states && states[id] == Settled(Passed)
  }

  predicate GateSettled(states: States, id: Id) {
    id in states && states[id].Settled?
  }

  predicate GateFailed(states: States, id: Id) {
    id in states && states[id].Settled? && states[id].status != Passed
  }

  predicate IsPending(states: States, id: Id) {
    id in states && states[id].Pending?
  }

  predicate PredecessorsReady(g: Gate, states: States) {
    && (forall d :: d in g.needs ==> HasPassed(states, d))
    && (forall d :: d in g.after ==> GateSettled(states, d))
  }

  predicate Startable(g: Gate, states: States) {
    IsPending(states, g.id) && PredecessorsReady(g, states)
  }

  predicate Blocked(g: Gate, states: States) {
    IsPending(states, g.id) && exists d :: d in g.needs && GateFailed(states, d)
  }

  function FirstStartable(gates: seq<Gate>, states: States): (r: Option<Gate>)
    ensures r.Some? ==> r.value in gates && Startable(r.value, states)
    ensures r.None? ==> forall g :: g in gates ==> !Startable(g, states)
  {
    if gates == [] then None
    else if Startable(gates[0], states) then Some(gates[0])
    else FirstStartable(gates[1..], states)
  }

  function FirstBlocked(gates: seq<Gate>, states: States): (r: Option<Gate>)
    ensures r.Some? ==> r.value in gates && Blocked(r.value, states)
    ensures r.None? ==> forall g :: g in gates ==> !Blocked(g, states)
  {
    if gates == [] then None
    else if Blocked(gates[0], states) then Some(gates[0])
    else FirstBlocked(gates[1..], states)
  }

  /** The failed or skipped ids among `needs`, in order. */
  function FailedAmong(needs: seq<Id>, states: States): (r: seq<Id>)
    ensures forall d :: d in r <==> d in needs && GateFailed(states, d)
  {
    if needs == [] then []
    else (if GateFailed(states, needs[0]) then [needs[0]] else []) + FailedAmong(needs[1..], states)
  }

  function SkipResult(g: Gate, states: States): GateResult {
    GateResult(g, Skipped, "", FailedAmong(g.needs, states))
  }

  function Record(b: Board, id: Id, r: GateResult): Board {
    Board(b.states[id := Settled(r.status)], b.results[id := r])
  }

  ghost function PendingIds(states: States): set<Id> {
    set id | id in states && states[id].Pending?
  }

  /**
   * The reference run: execute the first startable gate to completion; when there is none,
   * skip the first gate with a failed need; stop when nothing is pending. `None` is a stall.
   */
  ghost function OneWorker(gates: seq<Gate>, execute: Gate -> GateResult, b: Board): Option<map<Id, GateResult>>
    decreases PendingIds(b.states)
  {
    if PendingIds(b.states) == {} then Some(b.results)
    else
      var ready := FirstStartable(gates, b.states);
      if ready.Some? then
        assert ready.value.id in PendingIds(b.states);
        OneWorker(gates, execute, Record(b, ready.value.id, execute(ready.value)))
      else
        var blocked := FirstBlocked(gates, b.states);
        if blocked.Some? then
          assert blocked.value.id in PendingIds(b.states);
          OneWorker(gates, execute, Record(b, blocked.value.id, SkipResult(blocked.value, b.states)))
        else None
  }

  /** Settling one startable gate leaves every other startable gate startable. */
  lemma StartableSurvives(b: Board, g: Gate, h: Gate, r: GateResult)
    requires Startable(g, b.states) && IsPending(b.states, h.id)
    requires g.id != h.id
    ensures Startable(g, Record(b, h.id, r).states)
  {
  }

  lemma RecordsCommute(b: Board, x: Id, rx: GateResult, y: Id, ry: GateResult)
    requires x != y
    ensures Record(Record(b, x, rx), y, ry) == Record(Record(b, y, ry), x, rx)
  {
    assert b.states[x := Settled(rx.status)][y := Settled(ry.status)]
        == b.states[y := Settled(ry.status)][x := Settled(rx.status)];
    assert b.results[x := rx][y := ry] == b.results[y := ry][x := rx];
  }

  lemma RecordShrinksPending(b: Board, id: Id, r: GateResult)
    requires IsPending(b.states, id)
    ensures id in PendingIds(b.states)
    ensures PendingIds(Record(b, id, r).states) == PendingIds(b.states) - {id}
  {
  }

  /** One unfolding of the reference run at a startable gate. */
  lemma OneWorkerStarts(gates: seq<Gate>, execute: Gate -> GateResult, b: Board)
    requires FirstStartable(gates, b.states).Some?
    ensures var g := FirstStartable(gates, b.states).value;
      OneWorker(gates, execute, b) == OneWorker(gates, execute, Record(b, g.id, execute(g)))
  {
    assert FirstStartable(gates, b.states).value.id in PendingIds(b.states);
  }

  /**
   * Diamond: executing any startable gate now, instead of the first one, changes nothing about
   * where the reference run ends.
   */
  lemma {:induction false} AnyStartableFirst(gates: seq<Gate>, execute: Gate -> GateResult, b: Board, g: Gate)
    requires UniqueIds(gates)
    requires g in gates && Startable(g, b.states)
    ensures OneWorker(gates, execute, b) == OneWorker(gates, execute, Record(b, g.id, execute(g)))
    decreases PendingIds(b.states)
  {
    OneWorkerStarts(gates, execute, b);
    var h := FirstStartable(gates, b.states).value;
    if h == g {
    } else {
      var afterH, afterG := Record(b, h.id, execute(h)), Record(b, g.id, execute(g));
      StartableSurvives(b, g, h, execute(h));
      StartableSurvives(b, h, g, execute(g));
      RecordShrinksPending(b, h.id, execute(h));
      RecordShrinksPending(b, g.id, execute(g));
      AnyStartableFirst(gates, execute, afterH, g);
      AnyStartableFirst(gates, execute, afterG, h);
      RecordsCommute(b, h.id, execute(h), g.id, execute(g));
    }
  }

  // ---------------------------------------------------------------- transition system

  /** What the outside sees: a start, a settled executor promise, or a skip. */
  datatype Event =
    | Started(gate: Gate)
    | Finished(slot: nat, result: GateResult)
    | SkippedOver(result: GateResult)

  function Initial(gates: seq<Gate>): Scheduler {
    Scheduler(Board(map g | g in gates :: g.id := Pending, map[]), [])
  }

  function WithoutSlot(running: seq<Gate>, slot: nat): seq<Gate>
    requires slot < |running|
  {
    running[..slot] + running[slot + 1..]
  }

  /** When the scheduler may take a step: start eagerly, wait only when it cannot start, skip only when idle. */
  ghost predicate Allowed(c: Config, s: Scheduler, e: Event) {
    match e
    case Started(g) =>
      |s.running| < c.maxActive && FirstStartable(c.gates, s.board.states) == Some(g)
    case Finished(slot, result) =>
      && slot < |s.running|
      && result == c.execute(s.running[slot])
      && (|s.running| >= c.maxActive || FirstStartable(c.gates, s.board.states).None?)
    case SkippedOver(result) =>
      && s.running == []
      && FirstStartable(c.gates, s.board.states).None?
      && FirstBlocked(c.gates, s.board.states) == Some(result.gate)
      && result == SkipResult(result.gate, s.board.states)
  }

  ghost function Apply(s: Scheduler, e: Event): Scheduler {
    match e
    case Started(g) =>
      Scheduler(s.board.(states := s.board.states[g.id := Running]), s.running + [g])
    case Finished(slot, result) =>
      if slot < |s.running| then
        Scheduler(Record(s.board, s.running[slot].id, result), WithoutSlot(s.running, slot))
      else s
    case SkippedOver(result) =>
      Scheduler(Record(s.board, result.gate.id, result), s.running)
  }

  ghost function After(c: Config, events: seq<Event>): Scheduler {
    if events == [] then Initial(c.gates)
    else Apply(After(c, events[..|events| - 1]), events[|events| - 1])
  }

  /** A log the scheduler can produce. Any slot may finish first: the completion order is free. */
  ghost predicate Legal(c: Config, events: seq<Event>) {
    events == [] ||
    var before := events[..|events| - 1];
    Legal(c, before) && Allowed(c, After(c, before), events[|events| - 1])
  }

  ghost predicate Complete(s: Scheduler) {
    s.running == [] && PendingIds(s.board.states) == {}
  }

  // ---------------------------------------------------------------- invariant

  ghost predicate SkipEvidence(b: Board, g: Gate, r: GateResult) {
    && r.gate == g && r.status == Skipped && r.blockers != []
    && forall d :: d in r.blockers ==> d in g.needs && GateFailed(b.states, d)
  }

  /** Why a settled gate has the result it has. */
  ghost predicate Justified(c: Config, b: Board, g: Gate)
    requires g.id in b.results
  {
    || (PredecessorsReady(g, b.states) && b.results[g.id] == c.execute(g))
    || SkipEvidence(b, g, b.results[g.id])
  }

  /** Exactly the settled gates have results, and the two agree on the status. */
  ghost predicate Booked(b: Board) {
    && (forall id :: id in b.results <==> GateSettled(b.states, id))
    && (forall id :: id in b.results ==> b.states[id] == Settled(b.results[id].status))
  }

  /** The running list and the `Running` states are the same set of gates, all of them ready. */
  ghost predicate RunsExactly(gates: seq<Gate>, states: States, running: seq<Gate>) {
    && (forall g :: g in running ==> g in gates && PredecessorsReady(g, states))
    && (forall i, j :: 0 <= i < j < |running| ==> running[i].id != running[j].id)
    && (forall g :: g in gates ==> g.id in states && (states[g.id].Running? <==> g in running))
  }

  ghost predicate AllJustified(c: Config, b: Board) {
    forall g :: g in c.gates && g.id in b.results ==> Justified(c, b, g)
  }

  ghost predicate Invariant(c: Config, s: Scheduler) {
    && |s.running| <= c.maxActive
    && s.board.states.Keys == Ids(c.gates)
    && Booked(s.board)
    && RunsExactly(c.gates, s.board.states, s.running)
    && AllJustified(c, s.board)
  }

  /** The board as it will be once every running gate has settled. */
  ghost function Drain(execute: Gate -> GateResult, b: Board, running: seq<Gate>): Board {
    if running == [] then b
    else
      var last := running[|running| - 1];
      Record(Drain(execute, b, running[..|running| - 1]), last.id, execute(last))
  }
}
