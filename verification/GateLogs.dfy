/**
 * When a gate may start, settle or be skipped, told by the log and the recorded results alone, and
 * that the scheduler produces exactly the logs that keep to it.
 */
module GateLogs {
  import opened Wrappers
  import opened Graphs
  import opened GateGraph
  import opened GateSchedule
  import opened GateRuns

  type Results = map<Id, GateResult>

  /** Every need has passed, and everything to wait for has some result. */
  ghost predicate Prepared(g: Gate, results: Results) {
    && (forall d :: d in g.needs ==> d in results && results[d].status == Passed)
    && (forall d :: d in g.after ==> d in results)
  }

  /** Neither started nor skipped so far. */
  ghost predicate Waiting(events: seq<Event>, results: Results, g: Gate) {
    Started(g) !in events && g.id !in results
  }

  /** `due` holds of the gate and of no gate before it. */
  ghost predicate IsFirst(gates: seq<Gate>, g: Gate, due: Gate -> bool) {
    exists i :: 0 <= i < |gates| && gates[i] == g && due(g) && forall j :: 0 <= j < i ==> !due(gates[j])
  }

  ghost predicate Increasing(places: seq<nat>) {
    forall i, j :: 0 <= i < j < |places| ==> places[i] < places[j]
  }

  ghost predicate PicksAt(s: seq<Id>, wanted: Id -> bool, picked: seq<Id>, places: seq<nat>) {
    && Increasing(places) && |places| == |picked|
    && (forall k :: 0 <= k < |places| ==> places[k] < |s| && picked[k] == s[places[k]])
    && (forall i: nat :: i in places <==> i < |s| && wanted(s[i]))
  }

  /** `picked` lists the elements of `s` that `wanted` holds of, in order and with repetitions. */
  ghost predicate Picks(s: seq<Id>, wanted: Id -> bool, picked: seq<Id>) {
    exists places :: PicksAt(s, wanted, picked, places)
  }

  ghost predicate Lost(results: Results, d: Id) {
    d in results && results[d].status != Passed
  }

  ghost predicate CanStart(before: seq<Event>, results: Results, g: Gate) {
    Waiting(before, results, g) && Prepared(g, results)
  }

  ghost predicate CannotPass(before: seq<Event>, results: Results, g: Gate) {
    Waiting(before, results, g) && exists d :: d in g.needs && Lost(results, d)
  }

  ghost predicate NoneCanStart(c: Config, before: seq<Event>, results: Results) {
    forall g :: g in c.gates ==> !CanStart(before, results, g)
  }

  /** The next event of a log that keeps to the rules. */
  ghost predicate Due(c: Config, before: seq<Event>, e: Event) {
    var results, running := After(c, before).board.results, After(c, before).running;
    match e
    case Started(g) => |running| < c.maxActive && IsFirst(c.gates, g, h => CanStart(before, results, h))
    case Finished(slot, result) =>
      && slot < |running| && result == c.execute(running[slot])
      && (|running| >= c.maxActive || NoneCanStart(c, before, results))
    case SkippedOver(result) =>
      && running == [] && NoneCanStart(c, before, results)
      && IsFirst(c.gates, result.gate, h => CannotPass(before, results, h))
      && result.status == Skipped && result.output == ""
      && Picks(result.gate.needs, d => Lost(results, d), result.blockers)
  }

  ghost predicate Disciplined(c: Config, events: seq<Event>) {
    forall n :: 0 <= n < |events| ==> Due(c, events[..n], events[n])
  }

  // ---------------------------------------------------------------- first, and in order

  lemma FirstBehind(gates: seq<Gate>, g: Gate, due: Gate -> bool)
    requires gates != [] && !due(gates[0]) && IsFirst(gates[1..], g, due)
    ensures IsFirst(gates, g, due)
  {
    var i :| 0 <= i < |gates[1..]| && gates[1..][i] == g && due(g) && forall j :: 0 <= j < i ==> !due(gates[1..][j]);
    forall j | 0 <= j < i + 1 ensures !due(gates[j]) {
      if j > 0 {
        assert gates[1..][j - 1] == gates[j];
      }
    }
    assert gates[i + 1] == g;
  }

  lemma {:induction false} FirstStartableIsFirst(gates: seq<Gate>, states: States)
    requires FirstStartable(gates, states).Some?
    ensures IsFirst(gates, FirstStartable(gates, states).value, g => Startable(g, states))
  {
    if Startable(gates[0], states) {
      assert gates[0] == FirstStartable(gates, states).value;
    } else {
      FirstStartableIsFirst(gates[1..], states);
      FirstBehind(gates, FirstStartable(gates, states).value, g => Startable(g, states));
    }
  }

  lemma {:induction false} FirstBlockedIsFirst(gates: seq<Gate>, states: States)
    requires FirstBlocked(gates, states).Some?
    ensures IsFirst(gates, FirstBlocked(gates, states).value, g => Blocked(g, states))
  {
    if Blocked(gates[0], states) {
      assert gates[0] == FirstBlocked(gates, states).value;
    } else {
      FirstBlockedIsFirst(gates[1..], states);
      FirstBehind(gates, FirstBlocked(gates, states).value, g => Blocked(g, states));
    }
  }

  lemma FirstIsUnique(gates: seq<Gate>, g: Gate, h: Gate, due: Gate -> bool)
    requires IsFirst(gates, g, due) && IsFirst(gates, h, due)
    ensures g == h
  {
  }

  /** Only what `due` says of the gates at hand matters. */
  lemma FirstAlike(gates: seq<Gate>, g: Gate, due: Gate -> bool, other: Gate -> bool)
    requires forall h :: h in gates ==> due(h) == other(h)
    ensures IsFirst(gates, g, due) <==> IsFirst(gates, g, other)
  {
  }

  function Shifted(places: seq<nat>): seq<nat> {
    seq(|places|, i requires 0 <= i < |places| => places[i] + 1)
  }

  lemma ShiftedHas(places: seq<nat>)
    ensures forall i: nat :: i in Shifted(places) <==> i > 0 && i - 1 in places
  {
    forall i: nat | i > 0 && i - 1 in places ensures i in Shifted(places) {
      var k :| 0 <= k < |places| && places[k] == i - 1;
      assert Shifted(places)[k] == i;
    }
  }

  lemma ShiftedPicks(s: seq<Id>, wanted: Id -> bool, picked: seq<Id>, places: seq<nat>)
    requires s != [] && !wanted(s[0]) && PicksAt(s[1..], wanted, picked, places)
    ensures PicksAt(s, wanted, picked, Shifted(places))
  {
    ShiftedHas(places);
    forall i: nat ensures i in Shifted(places) <==> i < |s| && wanted(s[i]) {
      if 0 < i < |s| {
        assert s[1..][i - 1] == s[i];
      }
    }
  }

  lemma FirstAndShifted(places: seq<nat>)
    requires Increasing(places)
    ensures Increasing([0] + Shifted(places))
    ensures forall i: nat :: i in [0] + Shifted(places) <==> i == 0 || i - 1 in places
  {
    ShiftedHas(places);
  }

  lemma FirstAndShiftedStand(s: seq<Id>, picked: seq<Id>, places: seq<nat>, k: nat)
    requires s != [] && |places| == |picked| && k < |places| + 1
    requires forall i :: 0 <= i < |places| ==> places[i] < |s| - 1 && picked[i] == s[1..][places[i]]
    ensures var all := [0] + Shifted(places); all[k] < |s| && ([s[0]] + picked)[k] == s[all[k]]
  {
    if k > 0 {
      assert ([0] + Shifted(places))[k] == places[k - 1] + 1;
    }
  }

  lemma FirstAndShiftedPicks(s: seq<Id>, wanted: Id -> bool, picked: seq<Id>, places: seq<nat>)
    requires s != [] && wanted(s[0]) && PicksAt(s[1..], wanted, picked, places)
    ensures PicksAt(s, wanted, [s[0]] + picked, [0] + Shifted(places))
  {
    var all := [0] + Shifted(places);
    FirstAndShifted(places);
    forall k | 0 <= k < |all| ensures all[k] < |s| && ([s[0]] + picked)[k] == s[all[k]] {
      FirstAndShiftedStand(s, picked, places, k);
    }
    forall i: nat ensures i in all <==> i < |s| && wanted(s[i]) {
      assert 0 < i < |s| ==> s[1..][i - 1] == s[i];
    }
  }

  lemma PicksBehind(s: seq<Id>, wanted: Id -> bool, picked: seq<Id>)
    requires s != [] && Picks(s[1..], wanted, picked)
    ensures Picks(s, wanted, (if wanted(s[0]) then [s[0]] else []) + picked)
  {
    var places :| PicksAt(s[1..], wanted, picked, places);
    if wanted(s[0]) {
      FirstAndShiftedPicks(s, wanted, picked, places);
    } else {
      ShiftedPicks(s, wanted, picked, places);
      assert [] + picked == picked;
    }
  }

  lemma {:induction false} FailedAmongPicks(needs: seq<Id>, states: States)
    ensures Picks(needs, d => GateFailed(states, d), FailedAmong(needs, states))
  {
    if needs == [] {
      assert PicksAt(needs, d => GateFailed(states, d), [], []);
    } else {
      FailedAmongPicks(needs[1..], states);
      PicksBehind(needs, d => GateFailed(states, d), FailedAmong(needs[1..], states));
    }
  }

  ghost predicate Has(p: seq<nat>, i: nat) {
    i in p
  }

  ghost predicate SameMembers(p: seq<nat>, q: seq<nat>) {
    forall i: nat :: Has(p, i) <==> Has(q, i)
  }

  lemma LastIsLargest(p: seq<nat>, q: seq<nat>)
    requires Increasing(p) && Increasing(q) && p != [] && q != [] && SameMembers(p, q)
    ensures p[|p| - 1] == q[|q| - 1]
  {
    assert Has(p, p[|p| - 1]) && Has(q, q[|q| - 1]);
  }

  lemma FrontMembers(p: seq<nat>, i: nat)
    requires Increasing(p) && p != []
    ensures Has(p[..|p| - 1], i) <==> Has(p, i) && i != p[|p| - 1]
  {
    assert p == p[..|p| - 1] + [p[|p| - 1]];
  }

  lemma FrontsHaveTheSame(p: seq<nat>, q: seq<nat>)
    requires Increasing(p) && Increasing(q) && p != [] && q != [] && SameMembers(p, q)
    ensures p[|p| - 1] == q[|q| - 1] && SameMembers(p[..|p| - 1], q[..|q| - 1])
  {
    LastIsLargest(p, q);
    var pFront, qFront := p[..|p| - 1], q[..|q| - 1];
    forall i: nat ensures Has(pFront, i) <==> Has(qFront, i) {
      FrontMembers(p, i);
      FrontMembers(q, i);
    }
  }

  lemma SameFrontAndLast(p: seq<nat>, q: seq<nat>)
    requires p != [] && q != [] && p[..|p| - 1] == q[..|q| - 1] && p[|p| - 1] == q[|q| - 1]
    ensures p == q
  {
    assert p == p[..|p| - 1] + [p[|p| - 1]];
  }

  lemma {:induction false} IncreasingIsUnique(p: seq<nat>, q: seq<nat>)
    requires Increasing(p) && Increasing(q) && SameMembers(p, q)
    ensures p == q
  {
    if p == [] || q == [] {
      assert (p != [] ==> Has(p, p[0])) && (q != [] ==> Has(q, q[0]));
    } else {
      FrontsHaveTheSame(p, q);
      IncreasingIsUnique(p[..|p| - 1], q[..|q| - 1]);
      SameFrontAndLast(p, q);
    }
  }

  lemma PickedIsUnique(s: seq<Id>, wanted: Id -> bool, a: seq<Id>, b: seq<Id>)
    requires Picks(s, wanted, a) && Picks(s, wanted, b)
    ensures a == b
  {
    var p :| PicksAt(s, wanted, a, p);
    var q :| PicksAt(s, wanted, b, q);
    assert SameMembers(p, q);
    IncreasingIsUnique(p, q);
  }

  lemma PicksAlike(s: seq<Id>, wanted: Id -> bool, other: Id -> bool, picked: seq<Id>)
    requires (forall d :: d in s ==> wanted(d) == other(d)) && Picks(s, wanted, picked)
    ensures Picks(s, other, picked)
  {
    var places :| PicksAt(s, wanted, picked, places);
    assert PicksAt(s, other, picked, places);
  }

  // ---------------------------------------------------------------- states and results agree

  lemma InLog(before: seq<Event>, e: Event, x: Event)
    ensures x in before + [e] <==> x in before || x == e
  {
  }

  lemma StartEndsWaiting(c: Config, before: seq<Event>, s: Scheduler, e: Event, g: Gate)
    requires UniqueIds(c.gates) && Invariant(c, s) && Allowed(c, s, e) && e.Started? && g in c.gates
    requires IsPending(s.board.states, g.id) <==> Waiting(before, s.board.results, g)
    ensures var b := Apply(s, e).board; IsPending(b.states, g.id) <==> Waiting(before + [e], b.results, g)
  {
    InLog(before, e, Started(g));
  }

  lemma SettlementEndsWaiting(c: Config, before: seq<Event>, s: Scheduler, e: Event, g: Gate)
    requires UniqueIds(c.gates) && Invariant(c, s) && Allowed(c, s, e) && !e.Started? && g in c.gates
    requires IsPending(s.board.states, g.id) <==> Waiting(before, s.board.results, g)
    ensures var b := Apply(s, e).board; IsPending(b.states, g.id) <==> Waiting(before + [e], b.results, g)
  {
    InLog(before, e, Started(g));
    if e.Finished? {
      assert s.running[e.slot] in s.running;
    }
  }

  /** A pending gate is one that has neither been started nor skipped. */
  lemma {:induction false} PendingIsWaiting(c: Config, events: seq<Event>, g: Gate)
    requires UniqueIds(c.gates) && c.maxActive >= 1 && Legal(c, events) && g in c.gates
    ensures var b := After(c, events).board; IsPending(b.states, g.id) <==> Waiting(events, b.results, g)
  {
    if events == [] {
    } else {
      var before, e := events[..|events| - 1], events[|events| - 1];
      assert events == before + [e];
      PendingIsWaiting(c, before, g);
      ReachableInvariant(c, before);
      if e.Started? {
        StartEndsWaiting(c, before, After(c, before), e, g);
      } else {
        SettlementEndsWaiting(c, before, After(c, before), e, g);
      }
    }
  }

  lemma PreparedIsReady(b: Board, g: Gate)
    requires Booked(b)
    ensures Prepared(g, b.results) <==> PredecessorsReady(g, b.states)
    ensures forall d :: Lost(b.results, d) <==> GateFailed(b.states, d)
  {
  }

  // ---------------------------------------------------------------- the two views of a step

  /** States and results agree on which gates could start, and on which cannot pass any more. */
  lemma ViewsAgree(c: Config, before: seq<Event>, g: Gate)
    requires UniqueIds(c.gates) && c.maxActive >= 1 && Legal(c, before) && g in c.gates
    ensures var b := After(c, before).board;
      && (Startable(g, b.states) <==> CanStart(before, b.results, g))
      && (Blocked(g, b.states) <==> CannotPass(before, b.results, g))
  {
    ReachableInvariant(c, before);
    PendingIsWaiting(c, before, g);
    PreparedIsReady(After(c, before).board, g);
  }

  lemma FirstStartIsDue(c: Config, before: seq<Event>)
    requires UniqueIds(c.gates) && c.maxActive >= 1 && Legal(c, before)
    ensures var b := After(c, before).board;
      && (FirstStartable(c.gates, b.states).None? <==> NoneCanStart(c, before, b.results))
      && forall g :: FirstStartable(c.gates, b.states) == Some(g) <==>
        IsFirst(c.gates, g, h => CanStart(before, b.results, h))
  {
    var b := After(c, before).board;
    forall g | g in c.gates ensures Startable(g, b.states) <==> CanStart(before, b.results, g) {
      ViewsAgree(c, before, g);
    }
    var first := FirstStartable(c.gates, b.states);
    if first.Some? {
      FirstStartableIsFirst(c.gates, b.states);
      FirstAlike(c.gates, first.value, h => Startable(h, b.states), h => CanStart(before, b.results, h));
      forall g | IsFirst(c.gates, g, h => CanStart(before, b.results, h)) ensures first == Some(g) {
        FirstIsUnique(c.gates, g, first.value, h => CanStart(before, b.results, h));
      }
    }
  }

  lemma FirstSkipIsDue(c: Config, before: seq<Event>)
    requires UniqueIds(c.gates) && c.maxActive >= 1 && Legal(c, before)
    ensures var b := After(c, before).board;
      forall g :: FirstBlocked(c.gates, b.states) == Some(g) <==>
        IsFirst(c.gates, g, h => CannotPass(before, b.results, h))
  {
    var b := After(c, before).board;
    forall g | g in c.gates ensures Blocked(g, b.states) <==> CannotPass(before, b.results, g) {
      ViewsAgree(c, before, g);
    }
    var first := FirstBlocked(c.gates, b.states);
    if first.Some? {
      FirstBlockedIsFirst(c.gates, b.states);
      FirstAlike(c.gates, first.value, h => Blocked(h, b.states), h => CannotPass(before, b.results, h));
      forall g | IsFirst(c.gates, g, h => CannotPass(before, b.results, h)) ensures first == Some(g) {
        FirstIsUnique(c.gates, g, first.value, h => CannotPass(before, b.results, h));
      }
    }
  }

  lemma SkipNamesLostNeeds(b: Board, result: GateResult)
    requires Booked(b)
    ensures result == SkipResult(result.gate, b.states) <==>
      && result.status == Skipped && result.output == ""
      && Picks(result.gate.needs, d => Lost(b.results, d), result.blockers)
  {
    var needs, failed := result.gate.needs, FailedAmong(result.gate.needs, b.states);
    FailedAmongPicks(needs, b.states);
    PicksAlike(needs, d => GateFailed(b.states, d), d => Lost(b.results, d), failed);
    if Picks(needs, d => Lost(b.results, d), result.blockers) {
      PickedIsUnique(needs, d => Lost(b.results, d), result.blockers, failed);
    }
  }

  /** A step is allowed exactly when it is due. */
  lemma AllowedIffDue(c: Config, before: seq<Event>, e: Event)
    requires UniqueIds(c.gates) && c.maxActive >= 1 && Legal(c, before)
    ensures Allowed(c, After(c, before), e) <==> Due(c, before, e)
  {
    ReachableInvariant(c, before);
    FirstStartIsDue(c, before);
    match e
    case Started(_) =>
    case Finished(_, _) =>
    case SkippedOver(result) =>
      FirstSkipIsDue(c, before);
      SkipNamesLostNeeds(After(c, before).board, result);
  }

  lemma DisciplinedStep(c: Config, events: seq<Event>)
    requires events != []
    ensures var n := |events| - 1;
      Disciplined(c, events) <==> Disciplined(c, events[..n]) && Due(c, events[..n], events[n])
  {
    var n := |events| - 1;
    assert forall k :: 0 <= k < n ==> events[..n][..k] == events[..k];
    if Disciplined(c, events[..n]) && Due(c, events[..n], events[n]) {
      forall k | 0 <= k < |events| ensures Due(c, events[..k], events[k]) {
        if k < n {
          assert Due(c, events[..n][..k], events[..n][k]);
        }
      }
    }
    if Disciplined(c, events) {
      forall k | 0 <= k < n ensures Due(c, events[..n][..k], events[..n][k]) {
        assert Due(c, events[..k], events[k]);
      }
    }
  }

  /**
   * The scheduler produces exactly the logs in which a gate is started once its needs have passed and
   * what it comes after has settled, first things first; in which it waits only at the bound or when
   * nothing can start; and in which it skips only when idle, naming the lost needs.
   */
  lemma {:induction false} LegalIffDisciplined(c: Config, events: seq<Event>)
    requires UniqueIds(c.gates) && c.maxActive >= 1
    ensures Legal(c, events) <==> Disciplined(c, events)
    decreases |events|
  {
    if events == [] {
    } else {
      var before, e := events[..|events| - 1], events[|events| - 1];
      LegalIffDisciplined(c, before);
      DisciplinedStep(c, events);
      if Legal(c, before) {
        AllowedIffDue(c, before, e);
      }
    }
  }
}
