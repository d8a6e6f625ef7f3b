/** The publication code itself: the process may die, and others may act, before any registry operation. */
module RegistryPublication {
  import opened Wrappers
  import opened Publication
  import opened PublicationRuns
  import opened PublicationOutcomes

  lemma {:induction false} StepsThenRun(b: Bundle, r: Registry, p: Point, n: nat)
    ensures var (r', p') := Steps(b, r, p, n); RunToEnd(b, r', p') == RunToEnd(b, r, p)
  {
    if n == 0 {
    } else {
      StepsThenRun(b, r, p, n - 1);
      var (r', p') := Steps(b, r, p, n - 1);
      assert Steps(b, r, p, n) == Step(b, r', p');
      if Ended(p') {
        assert Step(b, r', p') == (r', p');
      } else {
        Unfold(b, r', p');
      }
    }
  }

  lemma ReachedTheEnd(b: Bundle, r: Registry, n: nat, p: Point)
    requires Ended(p) && Steps(b, r, Inspect(0), n).1 == p
    ensures RunToEnd(b, r, Inspect(0)) == (Steps(b, r, Inspect(0), n).0, p)
  {
    StepsThenRun(b, r, Inspect(0), n);
  }

  /** How a call ends; `Stopped` is a crash between two registry operations. */
  datatype Result = Succeeded | Threw(failure: Failure) | Stopped

  function EndPoint(r: Result): Point
    requires !r.Stopped?
  {
    if r.Succeeded? then Published else Failed(r.failure)
  }

  /**
   * What other publishers make of the registry before an operation, given how many operations are left
   * before the process dies.
   */
  type Interference = (nat, Registry) -> Registry

  /** Others obey the registry's rule: published content stays. */
  ghost predicate Lawful(others: Interference) {
    forall n, r :: Preserves(r, others(n, r))
  }

  ghost predicate Quiet(others: Interference) {
    forall n, r :: others(n, r) == r
  }

  /** How many of the moves are this code's operations. */
  ghost function OurSteps(moves: seq<Move>): nat {
    if moves == [] then 0
    else OurSteps(moves[..|moves| - 1]) + if moves[|moves| - 1].OurStep? then 1 else 0
  }

  lemma HistoryGrows(b: Bundle, r: Registry, moves: seq<Move>, m: Move)
    requires History(b, r, moves) && Possible(After(b, r, moves), m)
    ensures History(b, r, moves + [m])
    ensures After(b, r, moves + [m]) == Next(b, After(b, r, moves), m)
    ensures OurSteps(moves + [m]) == OurSteps(moves) + if m.OurStep? then 1 else 0
  {
    assert (moves + [m])[..|moves|] == moves;
  }

  class Publisher {
    const bundle: Bundle
    const others: Interference
    var registry: Registry
    var budget: nat
    ghost var start: Registry
    ghost var moves: seq<Move>

    /**
     * A history of this run's operations and of other publishers' changes has brought the registry
     * where it is, and the run to `p`. With nobody else acting, that is where so many steps lead.
     */
    ghost predicate At(p: Point)
      reads this
    {
      && bundle.packages != [] && Lawful(others)
      && History(bundle, start, moves) && Restart !in moves
      && After(bundle, start, moves).registry == registry && Standing() == p
      && (Quiet(others) ==> (registry, p) == Steps(bundle, start, Inspect(0), OurSteps(moves)))
    }

    ghost function Standing(): Point
      reads this
    {
      After(bundle, start, moves).point
    }

    constructor (bundle: Bundle, registry: Registry, budget: nat, others: Interference)
      requires bundle.packages != [] && Lawful(others)
      ensures At(Inspect(0)) && this.bundle == bundle && this.registry == registry && this.budget == budget
      ensures this.others == others && start == registry && moves == []
    {
      this.bundle := bundle;
      this.others := others;
      this.registry := registry;
      this.budget := budget;
      start := registry;
      moves := [];
    }

    /** Others act; then this code goes on to its next operation, unless the process dies first. */
    method GoOn(ghost p: Point) returns (alive: bool)
      requires At(p)
      modifies this`registry, this`moves
      ensures At(p) && OurSteps(moves) == OurSteps(old(moves))
      ensures Quiet(others) ==> registry == old(registry)
      ensures alive <==> budget > 0
    {
      HistoryGrows(bundle, start, moves, Others(others(budget, registry)));
      moves := moves + [Others(others(budget, registry))];
      registry := others(budget, registry);
      alive := budget > 0;
    }

    /** Performs a registry operation: it happens entirely, and before anybody else acts. */
    method Operate(ghost p: Point, after: Registry)
      requires At(p) && budget > 0 && after == Step(bundle, registry, p).0
      modifies this`registry, this`budget, this`moves
      ensures At(Step(bundle, old(registry), p).1) && registry == after
      ensures budget == old(budget) - 1 && OurSteps(moves) == OurSteps(old(moves)) + 1
    {
      HistoryGrows(bundle, start, moves, OurStep);
      budget := budget - 1;
      moves := moves + [OurStep];
      registry := after;
    }

    /** The common frame: operations performed never exceed, and on a stop use up, the budget. */
    twostate predicate Spends(alive: bool)
      reads this
    {
      && start == old(start)
      && OurSteps(moves) + budget == OurSteps(old(moves)) + old(budget)
      && (!alive ==> budget == 0)
    }

    /** An operation that only reads. Until the next one nobody acts, so its answer is what `registry` shows. */
    method View(ghost p: Point) returns (alive: bool)
      requires At(p) && forall r :: Step(bundle, r, p).0 == r
      modifies this
      ensures Spends(alive)
      ensures Quiet(others) ==> registry == old(registry)
      ensures At(if alive then Step(bundle, registry, p).1 else p)
    {
      alive := GoOn(p);
      if alive {
        Operate(p, registry);
      }
    }

    /** View the package and upload it when it is absent; somebody may have published it since. */
    method PublishContent(i: nat) returns (r: Option<Result>)
      requires At(Inspect(i)) && i < |bundle.packages|
      modifies this
      ensures Spends(r != Some(Stopped))
      ensures r.None? ==> At(CheckTag(i))
      ensures r == Some(Stopped) ==> At(Standing())
      ensures r.Some? && r.value.Threw? ==> At(Failed(r.value.failure)) && Shows(bundle, registry, r.value.failure)
      ensures r != Some(Succeeded)
    {
      var package := bundle.packages[i];
      var alive := View(Inspect(i));
      if !alive { return Some(Stopped); }
      var existing := RemoteIntegrity(registry, package.name, bundle.version);
      if existing.Some? {
        return if existing.value == package.integrity then None else Some(Threw(DifferentIntegrity(i)));
      }
      alive := GoOn(Upload(i));
      if !alive { return Some(Stopped); }
      if RemoteIntegrity(registry, package.name, bundle.version).Some? {
        Operate(Upload(i), registry);
        return Some(Threw(PublishRejected(i)));
      }
      Operate(Upload(i), AddVersion(registry, package, bundle.version, bundle.distTag));
      r := None;
    }

    /** Make sure of the package's tag. */
    method EnsurePackageTag(i: nat) returns (r: Option<Result>)
      requires At(CheckTag(i)) && i < |bundle.packages|
      modifies this
      ensures Spends(r != Some(Stopped))
      ensures r.None? ==> At(NextPackage(bundle, i))
      ensures r == Some(Stopped) ==> At(Standing())
      ensures r.Some? && r.value.Threw? ==> At(Failed(r.value.failure)) && Shows(bundle, registry, r.value.failure)
      ensures r != Some(Succeeded)
    {
      var package := bundle.packages[i];
      var alive := View(CheckTag(i));
      if !alive { return Some(Stopped); }
      var tag := RemoteDistTag(registry, package.name, bundle.distTag);
      if tag == Some(bundle.version) {
        return None;
      }
      alive := GoOn(AddTag(i));
      if !alive { return Some(Stopped); }
      if RemoteIntegrity(registry, package.name, bundle.version).None? {
        Operate(AddTag(i), registry);
        return Some(Threw(TagRejected));
      }
      Operate(AddTag(i), SetTag(registry, package.name, bundle.distTag, bundle.version));
      r := None;
    }

    /** Every package in manifest order: its content, then its tag. */
    method PublishPackages() returns (r: Option<Result>)
      requires At(Inspect(0))
      modifies this
      ensures Spends(r != Some(Stopped))
      ensures r.None? ==> At(CheckLatest)
      ensures r == Some(Stopped) ==> At(Standing())
      ensures r.Some? && r.value.Threw? ==> At(Failed(r.value.failure)) && Shows(bundle, registry, r.value.failure)
      ensures r != Some(Succeeded)
    {
      for i := 0 to |bundle.packages|
        invariant At(if i < |bundle.packages| then Inspect(i) else CheckLatest) && Spends(true)
      {
        r := PublishContent(i);
        if r.Some? { return; }
        r := EnsurePackageTag(i);
        if r.Some? { return; }
      }
      r := None;
    }

    /** The entry package's `latest`, after every package. */
    method MoveLatest() returns (r: Option<Result>)
      requires At(CheckLatest)
      modifies this
      ensures Spends(r != Some(Stopped))
      ensures r.None? ==> At(VerifyContent(0))
      ensures r == Some(Stopped) ==> At(Standing())
      ensures r.Some? && r.value.Threw? ==> At(Failed(r.value.failure)) && Shows(bundle, registry, r.value.failure)
      ensures r != Some(Succeeded)
    {
      var alive := View(CheckLatest);
      if !alive { return Some(Stopped); }
      var known := KnownPackage(registry, ENTRY);
      var tag := RemoteDistTag(registry, ENTRY, LATEST);
      if !known {
        UnknownHasNoVersion(registry, ENTRY, bundle.version);
        return Some(Threw(TagRejected));
      }
      if tag == Some(bundle.version) { return None; }
      alive := GoOn(AddLatest);
      if !alive { return Some(Stopped); }
      if RemoteIntegrity(registry, ENTRY, bundle.version).None? {
        Operate(AddLatest, registry);
        return Some(Threw(TagRejected));
      }
      Operate(AddLatest, SetTag(registry, ENTRY, LATEST, bundle.version));
      r := None;
    }

    /** One package of the read-only pass. */
    method VerifyPackage(i: nat) returns (r: Option<Result>)
      requires At(VerifyContent(i)) && i < |bundle.packages|
      modifies this
      ensures Spends(r != Some(Stopped))
      ensures Quiet(others) ==> registry == old(registry)
      ensures r.None? ==> At(NextCheck(bundle, i))
      ensures r == Some(Stopped) ==> At(Standing())
      ensures r.Some? && r.value.Threw? ==> At(Failed(r.value.failure)) && Shows(bundle, registry, r.value.failure)
      ensures r != Some(Succeeded)
    {
      var package := bundle.packages[i];
      var alive := View(VerifyContent(i));
      if !alive { return Some(Stopped); }
      var integrity := RemoteIntegrity(registry, package.name, bundle.version);
      if integrity.None? { return Some(Threw(MissingPackage(i))); }
      if integrity.value != package.integrity { return Some(Threw(IntegrityMismatch(i))); }
      alive := View(VerifyTag(i));
      if !alive { return Some(Stopped); }
      var tag := RemoteDistTag(registry, package.name, bundle.distTag);
      r := if tag == Some(bundle.version) then None else Some(Threw(TagMismatch(i)));
    }

    /** The read-only pass over packages and their tags. */
    method VerifyRemote() returns (r: Option<Result>)
      requires At(VerifyContent(0))
      modifies this
      ensures Spends(r != Some(Stopped))
      ensures Quiet(others) ==> registry == old(registry)
      ensures r.None? ==> At(VerifyLatest)
      ensures r == Some(Stopped) ==> At(Standing())
      ensures r.Some? && r.value.Threw? ==> At(Failed(r.value.failure)) && Shows(bundle, registry, r.value.failure)
      ensures r != Some(Succeeded)
    {
      for i := 0 to |bundle.packages|
        invariant At(if i < |bundle.packages| then VerifyContent(i) else VerifyLatest)
        invariant Quiet(others) ==> registry == old(registry)
        invariant Spends(true)
      {
        r := VerifyPackage(i);
        if r.Some? { return; }
      }
      r := None;
    }

    /** The last look, at the entry package's `latest`. */
    method VerifyReleaseEntryDistTag() returns (r: Result)
      requires At(VerifyLatest)
      modifies this
      ensures Spends(r != Stopped)
      ensures Quiet(others) ==> registry == old(registry)
      ensures At(if r.Stopped? then Standing() else EndPoint(r))
      ensures r.Threw? ==> Shows(bundle, registry, r.failure)
    {
      var alive := View(VerifyLatest);
      if !alive { return Stopped; }
      r := if RemoteDistTag(registry, ENTRY, LATEST) == Some(bundle.version) then Succeeded else Threw(LatestMismatch);
    }

    /** The phases in order, up to the first stop or throw. */
    method RunPhases() returns (r: Result)
      requires At(Inspect(0))
      modifies this
      ensures Spends(r != Stopped)
      ensures At(if r.Stopped? then Standing() else EndPoint(r))
      ensures r.Threw? ==> Shows(bundle, registry, r.failure)
    {
      var stop := PublishPackages();
      if stop.Some? { return stop.value; }
      stop := MoveLatest();
      if stop.Some? { return stop.value; }
      stop := VerifyRemote();
      if stop.Some? { return stop.value; }
      r := VerifyReleaseEntryDistTag();
    }

    /**
     * With `budget` operations before the process dies, and others acting before each of them, the
     * call performs a history without restarts: it ends where that history stands, what it throws is
     * true of the registry it leaves, and `latest` has moved only onto a complete bundle. With nobody
     * else acting, the registry is left exactly where the step-by-step run stands, and a call that is
     * not stopped ends as that run ends.
     */
    method Publish() returns (r: Result)
      requires At(Inspect(0)) && moves == [] && start == registry
      modifies this
      ensures History(bundle, old(registry), moves) && Restart !in moves && OurSteps(moves) <= old(budget)
      ensures After(bundle, old(registry), moves).registry == registry
      ensures if r.Stopped? then OurSteps(moves) == old(budget) else Standing() == EndPoint(r)
      ensures r.Threw? ==> Shows(bundle, registry, r.failure)
      ensures TagsEntryLast(bundle) && After(bundle, old(registry), moves).moved ==> AllPresent(bundle, registry)
      ensures Quiet(others) ==>
        && registry == Steps(bundle, old(registry), Inspect(0), OurSteps(moves)).0
        && (!r.Stopped? ==> RunToEnd(bundle, old(registry), Inspect(0)) == (registry, EndPoint(r)))
    {
      r := RunPhases();
      if TagsEntryLast(bundle) {
        LatestMovesLast(bundle, start, moves);
      }
      if Quiet(others) && !r.Stopped? {
        ReachedTheEnd(bundle, start, OurSteps(moves), EndPoint(r));
      }
    }
  }
}
