/** A pool of workers sharing one cursor, over every interleaving at their single `await`. */
module WorkerPool {
  import opened Wrappers

  /** Suspended on the lint of one target, or past the end of its loop. */
  datatype Worker = Awaiting(index: nat) | Returned

  datatype Outcome<R> = MissingResult(index: nat) | Results(results: seq<R>)

  // ---------------------------------------------------------------- what the outside sees

  /** A lint begins, or its promise settles. */
  datatype Action = Started(index: nat) | Settled(index: nat)

  /** The indices whose lints were started, in order. */
  function Starts(log: seq<Action>): seq<nat> {
    if log == [] then []
    else
      var front, last := Starts(log[..|log| - 1]), log[|log| - 1];
      if last.Started? then front + [last.index] else front
  }

  function Settlements(log: seq<Action>): seq<nat> {
    if log == [] then []
    else
      var front, last := Settlements(log[..|log| - 1]), log[|log| - 1];
      if last.Settled? then front + [last.index] else front
  }

  function InFlight(log: seq<Action>): int {
    |Starts(log)| - |Settlements(log)|
  }

  ghost predicate Fits(before: seq<Action>, action: Action) {
    match action
    case Started(i) => i !in Starts(before)
    case Settled(i) => i in Starts(before) && i !in Settlements(before)
  }

  /** Every lint is started once, and settles at most once, after its start. */
  ghost predicate Orderly(log: seq<Action>) {
    forall n :: 0 <= n < |log| ==> Fits(log[..n], log[n])
  }

  /** At no moment are more than `limit` lints in flight. */
  ghost predicate AtMost(log: seq<Action>, limit: nat) {
    forall n :: 0 <= n <= |log| ==> InFlight(log[..n]) <= limit
  }

  lemma LogGrows(log: seq<Action>, action: Action, limit: nat)
    ensures Starts(log + [action]) == if action.Started? then Starts(log) + [action.index] else Starts(log)
    ensures Settlements(log + [action]) ==
            if action.Settled? then Settlements(log) + [action.index] else Settlements(log)
    ensures Orderly(log) && Fits(log, action) ==> Orderly(log + [action])
    ensures AtMost(log, limit) && InFlight(log + [action]) <= limit ==> AtMost(log + [action], limit)
  {
    var longer := log + [action];
    assert longer[..|longer| - 1] == log;
    assert forall n :: 0 <= n <= |log| ==> longer[..n] == log[..n];
    assert longer[..|longer|] == longer;
  }

  /** Starts in index order make the next index one that was not started. */
  ghost predicate InOrder(log: seq<Action>) {
    forall i :: 0 <= i < |Starts(log)| ==> Starts(log)[i] == i
  }

  // ---------------------------------------------------------------- workers and indices

  ghost predicate AwaitedBySome(workers: seq<Worker>, i: nat) {
    exists k :: 0 <= k < |workers| && workers[k] == Awaiting(i)
  }

  /** Of the first `n` indices, each is done or awaited by exactly one worker; no other is either. */
  ghost predicate Accounted(n: nat, done: set<nat>, workers: seq<Worker>) {
    && (forall i :: i in done ==> i < n)
    && (forall k :: 0 <= k < |workers| && workers[k].Awaiting? ==> workers[k].index < n && workers[k].index !in done)
    && (forall j, k :: 0 <= j < k < |workers| && workers[j].Awaiting? && workers[k].Awaiting? ==>
      workers[j].index != workers[k].index)
    && (forall i :: 0 <= i < n && i !in done ==> AwaitedBySome(workers, i))
  }

  /** The workers whose lint is in flight. */
  ghost function Suspended(workers: seq<Worker>): set<nat> {
    set k | 0 <= k < |workers| && workers[k].Awaiting?
  }

  lemma {:induction false} BoundedSet(s: set<nat>, n: nat)
    requires forall k :: k in s ==> k < n
    ensures |s| <= n
  {
    if n == 0 {
      assert s == {};
    } else {
      BoundedSet(s - {n - 1}, n - 1);
    }
  }

  lemma SuspendedFit(workers: seq<Worker>)
    ensures |Suspended(workers)| <= |workers|
  {
    BoundedSet(Suspended(workers), |workers|);
  }

  lemma StillAwaited(workers: seq<Worker>, w: nat, worker: Worker, i: nat)
    requires w < |workers| && AwaitedBySome(workers, i) && workers[w] != Awaiting(i)
    ensures AwaitedBySome(workers[w := worker], i)
  {
    var k :| 0 <= k < |workers| && workers[k] == Awaiting(i);
    assert workers[w := worker][k] == Awaiting(i);
  }

  lemma AccountFinished(n: nat, done: set<nat>, workers: seq<Worker>, w: nat)
    requires Accounted(n, done, workers) && w < |workers| && workers[w].Awaiting?
    ensures Accounted(n, done + {workers[w].index}, workers[w := Returned])
    ensures |Suspended(workers[w := Returned])| == |Suspended(workers)| - 1
  {
    forall i | 0 <= i < n && i !in done + {workers[w].index} ensures AwaitedBySome(workers[w := Returned], i) {
      StillAwaited(workers, w, Returned, i);
    }
    assert Suspended(workers[w := Returned]) == Suspended(workers) - {w};
  }

  lemma AccountClaimed(n: nat, done: set<nat>, workers: seq<Worker>, w: nat)
    requires Accounted(n, done, workers) && w < |workers| && workers[w].Returned?
    ensures Accounted(n + 1, done, workers[w := Awaiting(n)])
    ensures |Suspended(workers[w := Awaiting(n)])| == |Suspended(workers)| + 1
  {
    forall i | 0 <= i < n && i !in done ensures AwaitedBySome(workers[w := Awaiting(n)], i) {
      StillAwaited(workers, w, Awaiting(n), i);
    }
    assert workers[w := Awaiting(n)][w] == Awaiting(n);
    assert Suspended(workers[w := Awaiting(n)]) == Suspended(workers) + {w};
  }

  lemma AccountJoined(n: nat, done: set<nat>, workers: seq<Worker>)
    requires Accounted(n, done, workers)
    ensures Accounted(n, done, workers + [Returned])
    ensures Suspended(workers + [Returned]) == Suspended(workers)
  {
    forall i | 0 <= i < n && i !in done ensures AwaitedBySome(workers + [Returned], i) {
      var k :| 0 <= k < |workers| && workers[k] == Awaiting(i);
      assert (workers + [Returned])[k] == Awaiting(i);
    }
  }

  // ---------------------------------------------------------------- the log and the workers agree

  ghost predicate Consistent(log: seq<Action>, done: set<nat>, workers: seq<Worker>) {
    && Orderly(log) && InOrder(log) && AtMost(log, |workers|)
    && (forall i :: i in Settlements(log) <==> i in done)
    && Accounted(|Starts(log)|, done, workers)
    && InFlight(log) == |Suspended(workers)|
  }

  /** A new worker, before it claims anything. */
  lemma Joins(log: seq<Action>, done: set<nat>, workers: seq<Worker>)
    requires Consistent(log, done, workers)
    ensures Consistent(log, done, workers + [Returned])
  {
    AccountJoined(|Starts(log)|, done, workers);
  }

  /** An idle worker claims the next index and starts its lint. */
  lemma Claims(log: seq<Action>, done: set<nat>, workers: seq<Worker>, w: nat)
    requires Consistent(log, done, workers) && w < |workers| && workers[w].Returned?
    ensures Consistent(log + [Started(|Starts(log)|)], done, workers[w := Awaiting(|Starts(log)|)])
    ensures Starts(log + [Started(|Starts(log)|)]) == Starts(log) + [|Starts(log)|]
  {
    var n := |Starts(log)|;
    AccountClaimed(n, done, workers, w);
    SuspendedFit(workers[w := Awaiting(n)]);
    LogGrows(log, Started(n), |workers|);
  }

  /** The lint a worker waited for settles. */
  lemma Finishes(log: seq<Action>, done: set<nat>, workers: seq<Worker>, w: nat)
    requires Consistent(log, done, workers) && w < |workers| && workers[w].Awaiting?
    ensures Consistent(log + [Settled(workers[w].index)], done + {workers[w].index}, workers[w := Returned])
    ensures Starts(log + [Settled(workers[w].index)]) == Starts(log)
  {
    var i := workers[w].index;
    AccountFinished(|Starts(log)|, done, workers, w);
    SuspendedFit(workers[w := Returned]);
    assert Starts(log)[i] == i;
    LogGrows(log, Settled(i), |workers|);
  }

  // ---------------------------------------------------------------- the pool

  /**
   * The shared state of one run. Between two awaits a worker runs undisturbed: it stores the result
   * it waited for, claims the next index and starts its lint, or returns. The ghost `log` lists the
   * starts and settlements of lints.
   */
  class Pool<T(!new), R> {
    const targets: seq<T>
    const lint: T -> R
    var next: nat
    var results: map<nat, R>
    var workers: seq<Worker>
    ghost var log: seq<Action>

    ghost predicate Valid()
      reads this
    {
      Sound() && forall k :: 0 <= k < |workers| && workers[k].Returned? ==> next >= |targets|
    }

    ghost predicate Sound()
      reads this
    {
      && Consistent(log, results.Keys, workers)
      && |Starts(log)| == (if next < |targets| then next else |targets|)
      && (forall i :: i in results ==> i < |targets| && results[i] == lint(targets[i]))
    }

    constructor (targets: seq<T>, lint: T -> R)
      ensures this.targets == targets && this.lint == lint
      ensures Valid() && workers == [] && log == []
    {
      this.targets := targets;
      this.lint := lint;
      next, results, workers, log := 0, map[], [], [];
    }

    /** The top of the loop: claim the next index and start its lint, or return past the last one. */
    method ClaimNext(w: nat)
      requires Sound() && w < |workers| && workers[w].Returned?
      modifies this`next, this`workers, this`log
      ensures Sound() && next == old(next) + 1
      ensures if old(next) < |targets|
        then workers == old(workers)[w := Awaiting(old(next))] && log == old(log) + [Started(old(next))] &&
          |Starts(log)| == |Starts(old(log))| + 1
        else workers == old(workers) && log == old(log)
    {
      var index := next;
      next := next + 1;
      if index < |targets| {
        Claims(log, results.Keys, workers, w);
        workers := workers[w := Awaiting(index)];
        log := log + [Started(index)];
      }
    }

    /** The lint a worker waits for settles, and its result goes to its own slot. */
    method Store(w: nat)
      requires Sound() && w < |workers| && workers[w].Awaiting?
      modifies this`results, this`workers, this`log
      ensures Sound() && workers == old(workers)[w := Returned]
      ensures log == old(log) + [Settled(old(workers[w].index))] && Starts(log) == Starts(old(log))
      ensures |Suspended(workers)| < |Suspended(old(workers))|
    {
      var finished := workers[w].index;
      Finishes(log, results.Keys, workers, w);
      AccountFinished(|Starts(log)|, results.Keys, workers, w);
      results := results[finished := lint(targets[finished])];
      log := log + [Settled(finished)];
      workers := workers[w := Returned];
    }

    /** A worker starts and runs to its first await, or finds nothing to do and returns. */
    method Start()
      requires Valid()
      modifies this
      ensures Valid() && |workers| == |old(workers)| + 1
      ensures old(log) <= log
    {
      Joins(log, results.Keys, workers);
      workers := workers + [Returned];
      ClaimNext(|workers| - 1);
    }

    /** The lint a worker waits for settles; the worker runs to its next await or returns. */
    method Resume(w: nat)
      requires Valid()
      requires w < |workers| && workers[w].Awaiting?
      modifies this
      ensures Valid() && |workers| == |old(workers)|
      ensures old(log) <= log
      ensures |Starts(log)| > |Starts(old(log))| ||
        (|Starts(log)| == |Starts(old(log))| && |Suspended(workers)| < |Suspended(old(workers))|)
    {
      Store(w);
      ClaimNext(w);
    }
  }

  /** Lists results by target; throws at the first target without one. */
  method Collect<T, R>(targets: seq<T>, results: map<nat, R>) returns (outcome: Outcome<R>)
    ensures outcome.Results? <==> forall i: nat :: i < |targets| ==> i in results
    ensures outcome.Results? ==> |outcome.results| == |targets|
    ensures outcome.Results? ==> forall i :: 0 <= i < |targets| ==> outcome.results[i] == results[i]
    ensures outcome.MissingResult? ==> outcome.index < |targets| && outcome.index !in results
    ensures outcome.MissingResult? ==> forall i: nat :: i < outcome.index ==> i in results
  {
    var ordered: seq<R> := [];
    for n := 0 to |targets|
      invariant |ordered| == n
      invariant forall i: nat :: i < n ==> i in results && ordered[i] == results[i]
    {
      if n !in results {
        return MissingResult(n);
      }
      ordered := ordered + [results[n]];
    }
    outcome := Results(ordered);
  }

  /** Once no worker waits, every index claimed is done and nothing is in flight. */
  lemma AllSettled(log: seq<Action>, done: set<nat>, workers: seq<Worker>)
    requires Accounted(|Starts(log)|, done, workers)
    requires forall k :: 0 <= k < |workers| ==> workers[k].Returned?
    ensures forall i: nat :: i < |Starts(log)| ==> i in done
    ensures Suspended(workers) == {}
  {
    forall i: nat | i < |Starts(log)| ensures i in done {
      assert i in done || AwaitedBySome(workers, i);
    }
  }

  /**
   * For every order in which lints settle: each index is started once, in claim order, and settles
   * once, after its start; never more than `concurrency` lints are in flight; every slot ends with
   * its own target's result; and the missing-result throw happens exactly when no worker was started
   * although there are targets.
   */
  method RunAll<T(!new), R>(targets: seq<T>, concurrency: nat, lint: T -> R)
    returns (outcome: Outcome<R>, ghost log: seq<Action>)
    ensures outcome.MissingResult? <==> concurrency == 0 && targets != []
    ensures outcome.Results? ==> |outcome.results| == |targets|
    ensures outcome.Results? ==> forall i :: 0 <= i < |targets| ==> outcome.results[i] == lint(targets[i])
    ensures Orderly(log) && AtMost(log, concurrency)
    ensures |Starts(log)| == (if concurrency == 0 then 0 else |targets|)
    ensures forall i :: 0 <= i < |Starts(log)| ==> Starts(log)[i] == i
    ensures InFlight(log) == 0 && forall i :: i in Starts(log) ==> i in Settlements(log)
  {
    var pool := new Pool(targets, lint);
    for k := 0 to concurrency
      invariant pool.Valid() && |pool.workers| == k
      invariant k == 0 ==> pool.log == []
      invariant pool.targets == targets && pool.lint == lint
    {
      pool.Start();
    }
    while exists k :: 0 <= k < |pool.workers| && pool.workers[k].Awaiting?
      invariant pool.Valid() && |pool.workers| == concurrency
      invariant concurrency == 0 ==> pool.log == []
      invariant pool.targets == targets && pool.lint == lint
      decreases |targets| - |Starts(pool.log)|, |Suspended(pool.workers)|
    {
      var w: nat :| w < |pool.workers| && pool.workers[w].Awaiting?;
      pool.Resume(w);
    }
    AllSettled(pool.log, pool.results.Keys, pool.workers);
    if concurrency > 0 {
      assert pool.workers[0].Returned?;
      assert forall i: nat :: i < |targets| ==> i in pool.results;
    } else if targets != [] {
      assert 0 !in pool.results;
    }
    log := pool.log;
    outcome := Collect(targets, pool.results);
  }

  // ---------------------------------------------------------------- how many workers

  /** The concurrency override in the environment: unset, a canonical integer, or anything else. */
  datatype Override = Unset | Integer(value: int) | Malformed

  const MAX_SAFE_INTEGER := 9007199254740991

  /** How many workers are asked for: the override, else what the machine can run in parallel. */
  function Requested(override: Override, parallelism: nat): int {
    if override.Integer? then override.value else parallelism
  }

  predicate Acceptable(override: Override) {
    !override.Malformed? && (override.Integer? ==> 1 <= override.value <= MAX_SAFE_INTEGER)
  }

  /** `None` is the thrown configuration error. */
  function PublintConcurrency(total: nat, override: Override, parallelism: nat): (r: Option<nat>)
    ensures r.None? <==> total > 0 && !Acceptable(override)
    ensures r.Some? && total > 0 ==> r.value <= total && r.value <= Requested(override, parallelism)
    ensures r.Some? && total > 0 ==> r.value == total || r.value == Requested(override, parallelism)
    ensures r.Some? && total == 0 ==> r.value == 0
  {
    if total == 0 then Some(0)
    else
      match override
      case Unset => Some(if total < parallelism then total else parallelism)
      case Integer(value) =>
        if value < 1 || value > MAX_SAFE_INTEGER then None
        else Some(if total < value then total else value)
      case Malformed => None
  }

  /** A run sized by the configuration reports every package, each with its own result. */
  method RunConfigured<T(!new), R>(targets: seq<T>, override: Override, parallelism: nat, lint: T -> R)
    returns (results: Option<seq<R>>)
    requires parallelism >= 1
    ensures results.None? <==> targets != [] && !Acceptable(override)
    ensures results.Some? ==> |results.value| == |targets|
    ensures results.Some? ==> forall i :: 0 <= i < |targets| ==> results.value[i] == lint(targets[i])
  {
    var concurrency := PublintConcurrency(|targets|, override, parallelism);
    if concurrency.None? {
      return None;
    }
    var outcome, _ := RunAll(targets, concurrency.value, lint);
    match outcome {
      case Results(listed) =>
        results := Some(listed);
      case MissingResult(_) =>
        assert false;
        results := None;
    }
  }
}
