/** The gate list of one aggregate, and the validation that precedes any execution. */
module GateGraph {
  import opened Wrappers
  import opened Graphs

  /** A gate: `needs` must pass before it starts, `after` must merely settle. */
  datatype Gate = Gate(id: Id, title: string, needs: seq<Id>, after: seq<Id>)

  datatype GraphError =
    | NoGates
    | DuplicateId(id: Id)
    | UnknownNeed(gate: Id, missing: Id)
    | UnknownAfter(gate: Id, missing: Id)
    | DependencyCycle(cycle: seq<Id>)

  ghost function Ids(gates: seq<Gate>): set<Id> {
    set g | g in gates :: g.id
  }

  lemma IdsStep(gates: seq<Gate>, n: nat)
    requires n < |gates|
    ensures Ids(gates[..n + 1]) == Ids(gates[..n]) + {gates[n].id}
  {
    assert gates[..n + 1] == gates[..n] + [gates[n]];
  }

  ghost predicate UniqueIds(gates: seq<Gate>) {
    forall i, j :: 0 <= i < j < |gates| ==> gates[i].id != gates[j].id
  }

  ghost predicate KnownReferences(gates: seq<Gate>) {
    forall g :: g in gates ==>
      && (forall d :: d in g.needs ==> d in Ids(gates))
      && (forall d :: d in g.after ==> d in Ids(gates))
  }

  /** The id-to-predecessors map: both edge kinds, and the last of two gates with one id wins. */
  function PredecessorGraph(gates: seq<Gate>): Graph {
    if gates == [] then map[]
    else
      var last := gates[|gates| - 1];
      PredecessorGraph(gates[..|gates| - 1])[last.id := last.needs + last.after]
  }

  lemma {:induction false} PredecessorGraphKeys(gates: seq<Gate>)
    ensures PredecessorGraph(gates).Keys == Ids(gates)
  {
    if gates == [] {
    } else {
      var front, last := gates[..|gates| - 1], gates[|gates| - 1];
      PredecessorGraphKeys(front);
      assert gates == front + [last];
    }
  }

  lemma {:induction false} PredecessorGraphEntry(gates: seq<Gate>, g: Gate)
    requires UniqueIds(gates)
    requires g in gates
    ensures g.id in PredecessorGraph(gates)
    ensures PredecessorGraph(gates)[g.id] == g.needs + g.after
  {
    var front, last := gates[..|gates| - 1], gates[|gates| - 1];
    if g == last {
    } else {
      assert gates == front + [last];
      PredecessorGraphEntry(front, g);
      var i :| 0 <= i < |gates| && gates[i] == g;
    }
  }

  /** What a gate list must satisfy to be executable. */
  ghost predicate ValidGraph(gates: seq<Gate>) {
    && gates != []
    && UniqueIds(gates)
    && KnownReferences(gates)
    && Acyclic(PredecessorGraph(gates))
  }

  ghost predicate AllKnown(gates: seq<Gate>, ids: seq<Id>) {
    forall d :: d in ids ==> d in Ids(gates)
  }

  /** The gates before the `n`-th refer to known ids only. */
  ghost predicate KnownBefore(gates: seq<Gate>, n: nat)
    requires n < |gates|
  {
    forall g :: g in gates[..n] ==> AllKnown(gates, g.needs) && AllKnown(gates, g.after)
  }

  /** `missing` is the first unknown id of the list. */
  ghost predicate FirstUnknown(gates: seq<Gate>, ids: seq<Id>, missing: Id) {
    exists k :: 0 <= k < |ids| && ids[k] == missing && missing !in Ids(gates) && AllKnown(gates, ids[..k])
  }

  ghost predicate NeedsFirstUnknown(gates: seq<Gate>, n: int, missing: Id) {
    0 <= n < |gates| && KnownBefore(gates, n) && FirstUnknown(gates, gates[n].needs, missing)
  }

  ghost predicate WaitsForFirstUnknown(gates: seq<Gate>, n: int, missing: Id) {
    && 0 <= n < |gates| && KnownBefore(gates, n) && AllKnown(gates, gates[n].needs)
    && FirstUnknown(gates, gates[n].after, missing)
  }

  /**
   * The evidence each rejection carries: a kind of defect is reported only in the absence of those
   * before it, and of one kind the first in list order.
   */
  ghost predicate Explains(gates: seq<Gate>, e: GraphError) {
    match e
    case NoGates => gates == []
    case DuplicateId(id) =>
      exists n :: 0 <= n < |gates| && gates[n].id == id && id in Ids(gates[..n]) && UniqueIds(gates[..n])
    case UnknownNeed(gate, missing) =>
      UniqueIds(gates) && exists n :: NeedsFirstUnknown(gates, n, missing) && gates[n].id == gate
    case UnknownAfter(gate, missing) =>
      UniqueIds(gates) && exists n :: WaitsForFirstUnknown(gates, n, missing) && gates[n].id == gate
    case DependencyCycle(cycle) =>
      UniqueIds(gates) && KnownReferences(gates) && Cycle(PredecessorGraph(gates), cycle)
  }

  /** `path` is a walk over known ids without repetition, and `active` is its inverse. */
  ghost predicate PathIndexed(g: Graph, path: seq<Id>, active: map<Id, nat>) {
    && (path == [] || Walk(g, path))
    && (forall i :: 0 <= i < |path| ==> path[i] in g && path[i] in active && active[path[i]] == i)
    && (forall v :: v in active ==> active[v] < |path| && path[active[v]] == v)
  }

  /** Every predecessor of a completed id was completed earlier. */
  ghost predicate CompletedInOrder(g: Graph, complete: set<Id>, rank: map<Id, nat>) {
    && complete <= g.Keys
    && complete == rank.Keys
    && (forall v, p :: v in complete && p in g[v] && p in g ==> p in complete)
    && (forall v, p {:trigger rank[p], rank[v]} :: v in complete && p in g[v] && p in complete ==> rank[p] < rank[v])
    && (forall v :: v in complete ==> rank[v] < |complete|)
  }

  /** Those of the ids that the graph knows are complete. */
  ghost predicate AllComplete(g: Graph, ids: seq<Id>, complete: set<Id>) {
    Elements(ids) * g.Keys <= complete
  }

  lemma NoneComplete(g: Graph, ids: seq<Id>, complete: set<Id>)
    ensures AllComplete(g, ids[..0], complete)
  {
  }

  lemma AllAreComplete(g: Graph, ids: seq<Id>, complete: set<Id>)
    requires AllComplete(g, ids[..|ids|], complete)
    ensures AllComplete(g, ids, complete)
  {
    assert ids[..|ids|] == ids;
  }

  lemma OneMoreComplete(g: Graph, ids: seq<Id>, n: nat, before: set<Id>, complete: set<Id>)
    requires n < |ids| && AllComplete(g, ids[..n], before) && before <= complete
    requires ids[n] in g ==> ids[n] in complete
    ensures AllComplete(g, ids[..n + 1], complete)
  {
    ElementsStep(ids, n);
  }

  lemma CompletionExtends(g: Graph, complete: set<Id>, rank: map<Id, nat>, id: Id)
    requires CompletedInOrder(g, complete, rank)
    requires id in g && id !in complete
    requires AllComplete(g, g[id], complete)
    ensures CompletedInOrder(g, complete + {id}, rank[id := |complete|])
  {
    forall p | p in g[id] && p in g ensures p in complete {
      assert p in Elements(g[id]);
    }
  }

  lemma CompletionRefutesCycles(g: Graph, complete: set<Id>, rank: map<Id, nat>)
    requires CompletedInOrder(g, complete, rank)
    requires g.Keys <= complete
    ensures Acyclic(g)
  {
    forall v, p | v in g && p in g[v] && p in g ensures rank[p] < rank[v] {
      assert v in complete && p in complete;
    }
    RankedIsAcyclic(g, rank);
  }

  lemma {:induction false} DistinctIdsFit(path: seq<Id>, s: set<Id>)
    requires forall x :: x in path ==> x in s
    requires forall i, j :: 0 <= i < j < |path| ==> path[i] != path[j]
    ensures |path| <= |s|
  {
    if path == [] {
    } else {
      DistinctIdsFit(path[1..], s - {path[0]});
    }
  }

  lemma PathFits(g: Graph, path: seq<Id>, active: map<Id, nat>)
    requires PathIndexed(g, path, active)
    ensures |path| <= |g|
  {
    DistinctIdsFit(path, g.Keys);
  }

  lemma PathPushes(g: Graph, path: seq<Id>, active: map<Id, nat>, id: Id)
    requires PathIndexed(g, path, active)
    requires id in g && id !in active
    requires path != [] ==> id in g[path[|path| - 1]]
    ensures PathIndexed(g, path + [id], active[id := |path|])
  {
  }

  /** Meeting an id of the current path again closes the cycle from there on. */
  lemma PathCloses(g: Graph, path: seq<Id>, active: map<Id, nat>, id: Id)
    requires PathIndexed(g, path, active)
    requires id in active
    requires path != [] ==> id in g[path[|path| - 1]]
    ensures Cycle(g, path[active[id]..] + [id])
  {
  }

  lemma PathPops(g: Graph, path: seq<Id>, active: map<Id, nat>)
    requires path != []
    requires PathIndexed(g, path, active)
    ensures PathIndexed(g, path[..|path| - 1], active - {path[|path| - 1]})
  {
  }

  /**
   * The depth-first cycle search. `path` is the chain of ids being visited, `active` maps each
   * of them to its index, `complete` holds the ids known to lie on no cycle. The ghost `rank`
   * numbers completed ids in the order they completed.
   */
  class CycleSearch {
    const byId: Graph
    var complete: set<Id>
    var active: map<Id, nat>
    var path: seq<Id>
    ghost var rank: map<Id, nat>

    ghost predicate Valid()
      reads this
    {
      && PathIndexed(byId, path, active)
      && CompletedInOrder(byId, complete, rank)
      && complete !! active.Keys
    }

    constructor (byId: Graph)
      ensures Valid()
      ensures this.byId == byId && complete == {} && path == []
    {
      this.byId := byId;
      complete := {};
      active := map[];
      path := [];
      rank := map[];
    }

    /** `id` joins the chain being visited. */
    method Enter(id: Id)
      requires Valid()
      requires id in byId && id !in complete && id !in active
      requires path != [] ==> id in byId[path[|path| - 1]]
      modifies this`active, this`path
      ensures Valid()
      ensures path == old(path) + [id] && |path| <= |byId|
    {
      PathPushes(byId, path, active, id);
      active := active[id := |path|];
      path := path + [id];
      PathFits(byId, path, active);
    }

    /** `id` leaves the chain, all its predecessors being complete. */
    method Leave(id: Id)
      requires Valid()
      requires path != [] && path[|path| - 1] == id
      requires AllComplete(byId, byId[id], complete)
      modifies this
      ensures Valid()
      ensures path == old(path)[..|old(path)| - 1]
      ensures complete == old(complete) + {id}
    {
      PathPops(byId, path, active);
      CompletionExtends(byId, complete, rank, id);
      path := path[..|path| - 1];
      active := active - {id};
      rank := rank[id := |complete|];
      complete := complete + {id};
    }

    /** `id` is on the chain already: the chain from there on is a cycle. */
    method Close(id: Id) returns (r: Option<seq<Id>>)
      requires Valid()
      requires id in active && (path != [] ==> id in byId[path[|path| - 1]])
      ensures r.Some? && Cycle(byId, r.value)
    {
      PathCloses(byId, path, active, id);
      r := Some(path[active[id]..] + [id]);
    }

    /** `id` is the last of the chain being visited. */
    ghost predicate OnTop(id: Id)
      reads this
    {
      path != [] && path[|path| - 1] == id && id in byId && |path| <= |byId|
    }

    /** After the first `n` predecessors: the chain as it was, and these complete. */
    ghost predicate Progressed(chain: seq<Id>, before: set<Id>, predecessors: seq<Id>, n: nat)
      reads this
    {
      && Valid() && path == chain && before <= complete
      && n <= |predecessors| && AllComplete(byId, predecessors[..n], complete)
    }

    lemma NothingProgressed(predecessors: seq<Id>)
      requires Valid()
      ensures Progressed(path, complete, predecessors, 0)
    {
      NoneComplete(byId, predecessors, complete);
    }

    lemma ProgressedToTheEnd(chain: seq<Id>, before: set<Id>, predecessors: seq<Id>)
      requires Progressed(chain, before, predecessors, |predecessors|)
      ensures Valid() && path == chain && before <= complete && AllComplete(byId, predecessors, complete)
    {
      AllAreComplete(byId, predecessors, complete);
    }

    method Visit(id: Id) returns (r: Option<seq<Id>>)
      requires Valid()
      requires path != [] ==> id in byId[path[|path| - 1]]
      modifies this
      ensures r.Some? ==> Cycle(byId, r.value)
      ensures r.None? ==> Valid() && path == old(path)
      ensures r.None? ==> old(complete) <= complete && (id in byId ==> id in complete)
      decreases |byId| - |path|, 0
    {
      if id in complete {
        return None;
      }
      if id in active {
        r := Close(id);
        return;
      }
      if id !in byId {
        return None;
      }
      Enter(id);
      r := VisitPredecessors(id);
      if r.None? {
        Leave(id);
      }
    }

    method VisitPredecessors(id: Id) returns (r: Option<seq<Id>>)
      requires Valid()
      requires OnTop(id)
      modifies this
      ensures r.Some? ==> Cycle(byId, r.value)
      ensures r.None? ==> Valid() && path == old(path)
      ensures r.None? ==> old(complete) <= complete && AllComplete(byId, byId[id], complete)
      decreases |byId| - |path|, 2
    {
      var predecessors := byId[id];
      r := None;
      NothingProgressed(predecessors);
      for n := 0 to |predecessors|
        invariant r.None? && OnTop(id) && Progressed(old(path), old(complete), predecessors, n)
      {
        r := VisitNext(id, predecessors, n, old(complete));
        if r.Some? {
          return;
        }
      }
      ProgressedToTheEnd(old(path), old(complete), predecessors);
    }

    method VisitNext(id: Id, predecessors: seq<Id>, n: nat, ghost before: set<Id>) returns (r: Option<seq<Id>>)
      requires OnTop(id) && predecessors == byId[id]
      requires n < |predecessors| && Progressed(path, before, predecessors, n)
      modifies this
      ensures r.Some? ==> Cycle(byId, r.value)
      ensures r.None? ==> OnTop(id) && path == old(path) && Progressed(path, before, predecessors, n + 1)
      decreases |byId| - |path|, 1
    {
      ghost var earlier := complete;
      r := Visit(predecessors[n]);
      if r.None? {
        OneMoreComplete(byId, predecessors, n, earlier, complete);
      }
    }
  }

  /** Visits every root in turn, up to the first cycle. */
  method VisitAll(search: CycleSearch, roots: seq<Id>) returns (r: Option<seq<Id>>)
    requires search.Valid() && search.path == []
    modifies search
    ensures r.Some? ==> Cycle(search.byId, r.value)
    ensures r.None? ==> search.Valid() && AllComplete(search.byId, roots, search.complete)
  {
    for n := 0 to |roots|
      invariant search.Valid() && search.path == []
      invariant AllComplete(search.byId, roots[..n], search.complete)
    {
      ghost var before := search.complete;
      r := search.Visit(roots[n]);
      if r.Some? {
        return;
      }
      OneMoreComplete(search.byId, roots, n, before, search.complete);
    }
    assert roots[..|roots|] == roots;
    r := None;
  }

  function IdList(gates: seq<Gate>): (ids: seq<Id>)
    ensures |ids| == |gates| && forall i :: 0 <= i < |gates| ==> ids[i] == gates[i].id
  {
    if gates == [] then [] else [gates[0].id] + IdList(gates[1..])
  }

  lemma IdListElements(gates: seq<Gate>)
    ensures Elements(IdList(gates)) == Ids(gates)
  {
    forall g | g in gates ensures g.id in Elements(IdList(gates)) {
      var i :| 0 <= i < |gates| && gates[i] == g;
      assert IdList(gates)[i] == g.id;
    }
  }

  /** Some cycle exactly when there is one; otherwise the completion order ranks the graph. */
  method FindDependencyCycle(gates: seq<Gate>) returns (r: Option<seq<Id>>)
    ensures r.Some? ==> Cycle(PredecessorGraph(gates), r.value)
    ensures r.None? <==> Acyclic(PredecessorGraph(gates))
  {
    var search := new CycleSearch(PredecessorGraph(gates));
    PredecessorGraphKeys(gates);
    IdListElements(gates);
    r := VisitAll(search, IdList(gates));
    if r.None? {
      CompletionRefutesCycles(search.byId, search.complete, search.rank);
    }
  }

  /** Accepts exactly the valid graphs, and rejects with true evidence. */
  method ValidateGateGraph(gates: seq<Gate>) returns (r: Option<GraphError>)
    ensures r.None? <==> ValidGraph(gates)
    ensures r.Some? ==> Explains(gates, r.value)
  {
    if gates == [] {
      return Some(NoGates);
    }
    var ids: set<Id> := {};
    for n := 0 to |gates|
      invariant ids == Ids(gates[..n])
      invariant UniqueIds(gates[..n])
    {
      if gates[n].id in ids {
        return Some(DuplicateId(gates[n].id));
      }
      IdsStep(gates, n);
      ids := ids + {gates[n].id};
    }
    assert gates[..|gates|] == gates;
    for n := 0 to |gates|
      invariant forall g :: g in gates[..n] ==> AllKnown(gates, g.needs) && AllKnown(gates, g.after)
    {
      var needs, after := gates[n].needs, gates[n].after;
      for k := 0 to |needs|
        invariant AllKnown(gates, needs[..k])
      {
        if needs[k] !in ids {
          assert NeedsFirstUnknown(gates, n, needs[k]);
          return Some(UnknownNeed(gates[n].id, needs[k]));
        }
      }
      assert needs[..|needs|] == needs;
      for k := 0 to |after|
        invariant AllKnown(gates, after[..k])
      {
        if after[k] !in ids {
          assert WaitsForFirstUnknown(gates, n, after[k]);
          return Some(UnknownAfter(gates[n].id, after[k]));
        }
      }
      assert after[..|after|] == after && gates[..n + 1] == gates[..n] + [gates[n]];
    }
    var cycle := FindDependencyCycle(gates);
    if cycle.Some? {
      return Some(DependencyCycle(cycle.value));
    }
    r := None;
  }
}
