/** Complete runs, interrupted runs, and the bundle for which moving `latest` is not safe. */
module PublicationRuns {
  import opened Wrappers
  import opened Publication

  // ---------------------------------------------------------------- a run on its own

  function Left(n: nat, i: nat): nat {
    if i < n then n - i else 0
  }

  /** An upper bound on the operations a run has left. */
  function Remaining(b: Bundle, p: Point): nat {
    var n := |b.packages|;
    match p
    case Inspect(i) => 2 * n + 4 * Left(n, i) + 10
    case Upload(i) => 2 * n + 4 * Left(n, i) + 9
    case CheckTag(i) => 2 * n + 4 * Left(n, i) + 8
    case AddTag(i) => 2 * n + 4 * Left(n, i) + 7
    case CheckLatest => 2 * n + 6
    case AddLatest => 2 * n + 5
    case VerifyContent(i) => 2 * Left(n, i) + 3
    case VerifyTag(i) => 2 * Left(n, i) + 2
    case VerifyLatest => 1
    case Published => 0
    case Failed(_) => 0
  }

  predicate Ended(p: Point) {
    p.Published? || p.Failed?
  }

  /** The run from a point to its end, nobody interfering. */
  function RunToEnd(b: Bundle, r: Registry, p: Point): (Registry, Point)
    decreases Remaining(b, p)
  {
    if Ended(p) then (r, p)
    else
      var (r', p') := Step(b, r, p);
      RunToEnd(b, r', p')
  }

  /** The registry and point after at most `n` operations. */
  function Steps(b: Bundle, r: Registry, p: Point, n: nat): (Registry, Point) {
    if n == 0 then (r, p)
    else
      var (r', p') := Steps(b, r, p, n - 1);
      Step(b, r', p')
  }

  /** What is left of a registry after runs stopped after `stops[0]`, `stops[1]`, ... operations. */
  function Interrupted(b: Bundle, r: Registry, stops: seq<nat>): Registry {
    if stops == [] then r
    else Steps(b, Interrupted(b, r, stops[..|stops| - 1]), Inspect(0), stops[|stops| - 1]).0
  }

  // ---------------------------------------------------------------- re-running

  ghost predicate Tagged(b: Bundle, r: Registry, i: nat)
    requires i < |b.packages|
  {
    RemoteDistTag(r, b.packages[i].name, b.distTag) == Some(b.version)
  }

  /** The first `n` packages are published and tagged. */
  ghost predicate DoneUpTo(b: Bundle, r: Registry, n: nat) {
    n <= |b.packages| && forall i :: 0 <= i < n ==> Present(b, r, i) && Tagged(b, r, i)
  }

  /** What a run on its own knows at each point where it may still write. */
  ghost predicate Knows(b: Bundle, r: Registry, p: Point) {
    match p
    case Inspect(i) => DoneUpTo(b, r, i)
    case Upload(i) => i < |b.packages| && DoneUpTo(b, r, i) && RemoteIntegrity(r, b.packages[i].name, b.version).None?
    case CheckTag(i) => i < |b.packages| && DoneUpTo(b, r, i) && Present(b, r, i)
    case AddTag(i) => i < |b.packages| && DoneUpTo(b, r, i) && Present(b, r, i) && !Tagged(b, r, i)
    case CheckLatest => DoneUpTo(b, r, |b.packages|)
    case AddLatest => DoneUpTo(b, r, |b.packages|) && KnownPackage(r, ENTRY) &&
      RemoteDistTag(r, ENTRY, LATEST) != Some(b.version)
    case _ => true
  }

  lemma StepKeepsKnowledge(b: Bundle, r: Registry, p: Point)
    requires Loadable(b) && Knows(b, r, p)
    ensures Knows(b, Step(b, r, p).0, Step(b, r, p).1)
  {
    match p
    case Upload(i) =>
      var r' := Step(b, r, p).0;
      forall j | 0 <= j < i ensures Present(b, r', j) && Tagged(b, r', j) {
        assert Present(b, r, j) && Tagged(b, r, j);
      }
    case AddTag(i) =>
      var r' := Step(b, r, p).0;
      forall j | 0 <= j < i ensures Present(b, r', j) && Tagged(b, r', j) {
        assert Present(b, r, j) && Tagged(b, r, j);
      }
      assert Present(b, r, i);
    case _ =>
  }

  /** A fresh run passes over packages that are done without touching the registry. */
  lemma {:induction false} SkipsDone(b: Bundle, r: Registry, i: nat)
    requires DoneUpTo(b, r, i)
    ensures RunToEnd(b, r, Inspect(0)) == RunToEnd(b, r, Inspect(i))
  {
    if i == 0 {
    } else {
      SkipsDone(b, r, i - 1);
      assert Present(b, r, i - 1) && Tagged(b, r, i - 1);
      assert Step(b, r, Inspect(i - 1)) == (r, CheckTag(i - 1));
      assert Step(b, r, CheckTag(i - 1)) == (r, NextPackage(b, i - 1));
      assert RunToEnd(b, r, CheckTag(i - 1)) == RunToEnd(b, r, NextPackage(b, i - 1));
    }
  }

  /** A fresh run reaches a point another run stopped at, with the registry it left. */
  lemma FreshRunCatchesUp(b: Bundle, r: Registry, p: Point)
    requires Knows(b, r, p)
    requires p.Upload? || p.CheckTag? || p.AddTag? || p.CheckLatest? || p.AddLatest?
    ensures RunToEnd(b, r, Inspect(0)) == RunToEnd(b, r, p)
  {
    var i := if p.CheckLatest? || p.AddLatest? then |b.packages| else p.index;
    SkipsDone(b, r, i);
    match p
    case Upload(_) =>
    case CheckTag(_) =>
    case AddTag(_) =>
      assert Step(b, r, Inspect(i)) == (r, CheckTag(i));
      assert Step(b, r, CheckTag(i)) == (r, AddTag(i));
      assert RunToEnd(b, r, CheckTag(i)) == RunToEnd(b, r, AddTag(i));
    case CheckLatest =>
    case AddLatest =>
      assert Step(b, r, Inspect(i)) == (r, CheckLatest);
      assert RunToEnd(b, r, CheckLatest) == RunToEnd(b, r, AddLatest);
  }

  lemma LatestKeepsDone(b: Bundle, r: Registry)
    requires Knows(b, r, AddLatest)
    ensures Knows(b, SetTag(r, ENTRY, LATEST, b.version), CheckLatest)
    ensures KnownPackage(SetTag(r, ENTRY, LATEST, b.version), ENTRY)
  {
    var r' := SetTag(r, ENTRY, LATEST, b.version);
    forall i | 0 <= i < |b.packages| ensures Present(b, r', i) && Tagged(b, r', i) {
      assert Present(b, r, i) && Tagged(b, r, i);
    }
  }

  /** Stopping after one more operation does not change where a fresh run ends. */
  lemma StepKeepsDestination(b: Bundle, r: Registry, p: Point)
    requires Loadable(b) && Knows(b, r, p)
    ensures RunToEnd(b, Step(b, r, p).0, Inspect(0)) == RunToEnd(b, r, Inspect(0))
  {
    var (r', p') := Step(b, r, p);
    StepKeepsKnowledge(b, r, p);
    if r' != r {
      FreshRunCatchesUp(b, r, p);
      match p {
        case Upload(i) =>
          FreshRunCatchesUp(b, r', CheckTag(i));
        case AddTag(i) =>
          SkipsDone(b, r', i + 1);
        case AddLatest =>
          LatestKeepsDone(b, r);
          FreshRunCatchesUp(b, r', CheckLatest);
          assert Step(b, r', CheckLatest) == (r', VerifyContent(0));
      }
    }
  }

  lemma {:induction false} StopKeepsDestination(b: Bundle, r: Registry, n: nat)
    requires Loadable(b)
    ensures var (r', p') := Steps(b, r, Inspect(0), n);
      Knows(b, r', p') && RunToEnd(b, r', Inspect(0)) == RunToEnd(b, r, Inspect(0))
  {
    if n == 0 {
    } else {
      StopKeepsDestination(b, r, n - 1);
      var (r', p') := Steps(b, r, Inspect(0), n - 1);
      StepKeepsKnowledge(b, r', p');
      StepKeepsDestination(b, r', p');
    }
  }

  /**
   * However often, and wherever, runs stop: a run that completes afterwards ends with the registry
   * and the outcome of an uninterrupted run.
   */
  lemma {:induction false} ResumingChangesNothing(b: Bundle, r: Registry, stops: seq<nat>)
    requires Loadable(b)
    ensures RunToEnd(b, Interrupted(b, r, stops), Inspect(0)) == RunToEnd(b, r, Inspect(0))
  {
    if stops == [] {
    } else {
      var earlier := stops[..|stops| - 1];
      ResumingChangesNothing(b, r, earlier);
      StopKeepsDestination(b, Interrupted(b, r, earlier), stops[|stops| - 1]);
    }
  }

  // ---------------------------------------------------------------- when a run succeeds

  /** Nothing published clashes with the bundle, and the entry package has this version to point at. */
  ghost predicate Publishable(b: Bundle, r: Registry) {
    && (forall i :: 0 <= i < |b.packages| ==>
      RemoteIntegrity(r, b.packages[i].name, b.version).None? || Present(b, r, i))
    && (RemoteIntegrity(r, ENTRY, b.version).Some? || exists i :: 0 <= i < |b.packages| && b.packages[i].name == ENTRY)
  }

  /** Tags point at published versions. */
  ghost predicate TagsResolve(r: Registry) {
    forall k :: k in r.tags ==> (k.0, r.tags[k]) in r.content
  }

  /** All of the bundle is published and tagged, and the entry package's `latest` is this version. */
  ghost predicate Complete(b: Bundle, r: Registry) {
    DoneUpTo(b, r, |b.packages|) && RemoteDistTag(r, ENTRY, LATEST) == Some(b.version)
  }

  /** Only what belongs to the bundle differs between the two registries. */
  ghost predicate OnlyBundle(b: Bundle, r: Registry, r': Registry) {
    && Preserves(r, r')
    && (forall k :: k in r'.content && k !in r.content ==>
         k.1 == b.version && exists p :: p in b.packages && p.name == k.0)
    && (forall k :: k in r.tags ==> k in r'.tags)
    && (forall k :: k in r'.tags && (k !in r.tags || r'.tags[k] != r.tags[k]) ==>
      && r'.tags[k] == b.version
      && (k == (ENTRY, LATEST) || (k.1 == b.distTag && exists p :: p in b.packages && p.name == k.0)))
  }

  lemma OnlyBundleTrans(b: Bundle, r: Registry, r1: Registry, r2: Registry)
    requires OnlyBundle(b, r, r1) && OnlyBundle(b, r1, r2)
    ensures OnlyBundle(b, r, r2)
  {
  }

  lemma StepIsOnlyBundle(b: Bundle, r: Registry, p: Point)
    ensures OnlyBundle(b, r, Step(b, r, p).0)
  {
    if (p.Upload? || p.AddTag?) && p.index < |b.packages| {
      assert b.packages[p.index] in b.packages;
    }
  }

  lemma Unfold(b: Bundle, r: Registry, p: Point)
    requires !Ended(p)
    ensures Remaining(b, Step(b, r, p).1) < Remaining(b, p)
    ensures RunToEnd(b, r, p) == RunToEnd(b, Step(b, r, p).0, Step(b, r, p).1)
  {
  }

  /** What the final read-only pass has confirmed so far. */
  ghost predicate Verified(b: Bundle, r: Registry, p: Point) {
    match p
    case VerifyContent(i) => DoneUpTo(b, r, i)
    case VerifyTag(i) => i < |b.packages| && DoneUpTo(b, r, i) && Present(b, r, i)
    case VerifyLatest => DoneUpTo(b, r, |b.packages|)
    case Published => Complete(b, r)
    case _ => true
  }

  lemma StepKeepsVerified(b: Bundle, r: Registry, p: Point)
    requires Verified(b, r, p)
    ensures Verified(b, Step(b, r, p).0, Step(b, r, p).1)
  {
  }

  /** A complete run touches nothing outside its bundle, and if it succeeds the bundle is complete. */
  lemma {:induction false} RunEndsComplete(b: Bundle, r: Registry, p: Point)
    requires Loadable(b) && Knows(b, r, p) && Verified(b, r, p)
    ensures var (r', p') := RunToEnd(b, r, p);
      Ended(p') && OnlyBundle(b, r, r') && (p'.Published? ==> Complete(b, r'))
    decreases Remaining(b, p)
  {
    if Ended(p) {
    } else {
      var (r', p') := Step(b, r, p);
      StepKeepsKnowledge(b, r, p);
      StepKeepsVerified(b, r, p);
      Unfold(b, r, p);
      RunEndsComplete(b, r', p');
      StepIsOnlyBundle(b, r, p);
      OnlyBundleTrans(b, r, r', RunToEnd(b, r', p').0);
    }
  }

  lemma {:induction false} LatestResolves(b: Bundle, r: Registry, p: Point)
    requires TagsResolve(r) && (p.CheckTag? && p.index < |b.packages| ==> Present(b, r, p.index))
    ensures TagsResolve(RunToEnd(b, r, p).0)
    decreases Remaining(b, p)
  {
    if Ended(p) {
    } else {
      var (r', p') := Step(b, r, p);
      Unfold(b, r, p);
      LatestResolves(b, r', p');
    }
  }

  ghost predicate OnTrack(b: Bundle, r: Registry, p: Point) {
    match p
    case VerifyContent(i) => i <= |b.packages| && Complete(b, r)
    case VerifyTag(i) => i < |b.packages| && Complete(b, r)
    case VerifyLatest => Complete(b, r)
    case Failed(_) => false
    case _ => true
  }

  lemma StepStaysOnTrack(b: Bundle, r: Registry, p: Point)
    requires Loadable(b) && Publishable(b, r) && Knows(b, r, p) && OnTrack(b, r, p)
    ensures Publishable(b, Step(b, r, p).0) && OnTrack(b, Step(b, r, p).0, Step(b, r, p).1)
  {
    var (r', p') := Step(b, r, p);
    forall i | 0 <= i < |b.packages|
      ensures RemoteIntegrity(r', b.packages[i].name, b.version).None? || Present(b, r', i)
    {
      assert RemoteIntegrity(r, b.packages[i].name, b.version).None? || Present(b, r, i);
    }
    if p.CheckLatest? || p.AddLatest? {
      if i :| 0 <= i < |b.packages| && b.packages[i].name == ENTRY {
        assert Present(b, r, i);
      }
      assert (ENTRY, b.version) in r.content;
      forall i | 0 <= i < |b.packages| ensures Present(b, r', i) && Tagged(b, r', i) {
        assert Present(b, r, i) && Tagged(b, r, i);
      }
    }
    if p.VerifyContent? && p.index < |b.packages| {
      assert Present(b, r, p.index);
    }
    if p.VerifyTag? {
      assert Tagged(b, r, p.index);
    }
  }

  lemma {:induction false} PublishableRunSucceeds(b: Bundle, r: Registry, p: Point)
    requires Loadable(b) && Publishable(b, r) && Knows(b, r, p) && OnTrack(b, r, p)
    ensures RunToEnd(b, r, p).1.Published?
    decreases Remaining(b, p)
  {
    if Ended(p) {
    } else {
      StepStaysOnTrack(b, r, p);
      Unfold(b, r, p);
      var (r', p') := Step(b, r, p);
      StepKeepsKnowledge(b, r, p);
      PublishableRunSucceeds(b, r', p');
    }
  }

  /** A run succeeds exactly when the bundle was publishable to begin with. */
  lemma {:induction false} SucceedsIffPublishable(b: Bundle, r: Registry)
    requires Loadable(b) && TagsResolve(r)
    ensures RunToEnd(b, r, Inspect(0)).1.Published? <==> Publishable(b, r)
  {
    RunEndsComplete(b, r, Inspect(0));
    if Publishable(b, r) {
      PublishableRunSucceeds(b, r, Inspect(0));
    }
    if RunToEnd(b, r, Inspect(0)).1.Published? {
      var r' := RunToEnd(b, r, Inspect(0)).0;
      forall i | 0 <= i < |b.packages|
        ensures RemoteIntegrity(r, b.packages[i].name, b.version).None? || Present(b, r, i)
      {
        assert Present(b, r', i);
      }
      LatestResolves(b, r, Inspect(0));
      assert (ENTRY, b.version) in r'.content;
      if (ENTRY, b.version) !in r.content {
        var p :| p in b.packages && p.name == ENTRY;
        var i :| 0 <= i < |b.packages| && b.packages[i] == p;
      }
    }
  }

  // ---------------------------------------------------------------- an unsafe manifest

  function Fresh(): Registry {
    Registry(map[], map[])
  }

  /** On an empty registry, exactly the first `i` packages are published when the run inspects `i`. */
  ghost predicate UploadedFirst(b: Bundle, s: System, i: nat) {
    && i < |b.packages| && s.point == Inspect(i)
    && forall k :: k in s.registry.content <==> k.1 == b.version && exists j :: 0 <= j < i && b.packages[j].name == k.0
  }

  /** On such a registry one round of three operations uploads the next package. */
  lemma UploadsNext(b: Bundle, s: System, i: nat)
    requires Loadable(b) && i + 1 < |b.packages| && UploadedFirst(b, s, i)
    ensures UploadedFirst(b, Next(b, Next(b, Next(b, s, OurStep), OurStep), OurStep), i + 1)
  {
    var key := (b.packages[i].name, b.version);
    assert key !in s.registry.content;
    var s1 := Next(b, s, OurStep);
    assert s1 == s.(point := Upload(i));
    var s2 := Next(b, s1, OurStep);
    assert s2.registry == AddVersion(s.registry, b.packages[i], b.version, b.distTag) && s2.point == CheckTag(i);
    assert Next(b, s2, OurStep).registry == s2.registry && Next(b, s2, OurStep).point == Inspect(i + 1);
  }

  lemma TakeStep(b: Bundle, moves: seq<Move>) returns (longer: seq<Move>)
    requires History(b, Fresh(), moves)
    ensures longer == moves + [OurStep]
    ensures History(b, Fresh(), longer)
    ensures After(b, Fresh(), longer) == Next(b, After(b, Fresh(), moves), OurStep)
  {
    longer := moves + [OurStep];
    assert longer[..|moves|] == moves;
  }

  lemma {:induction false} ReachInspect(b: Bundle, i: nat) returns (moves: seq<Move>)
    requires Loadable(b) && i < |b.packages|
    ensures History(b, Fresh(), moves) && UploadedFirst(b, After(b, Fresh(), moves), i)
  {
    moves := [];
    if i == 0 {
    } else {
      moves := ReachInspect(b, i - 1);
      UploadsNext(b, After(b, Fresh(), moves), i - 1);
      moves := TakeStep(b, moves);
      moves := TakeStep(b, moves);
      moves := TakeStep(b, moves);
    }
  }

  lemma UploadMovesLatest(b: Bundle, s: System, k: nat)
    requires Loadable(b) && UploadedFirst(b, s, k) && b.distTag == LATEST
    requires k + 1 < |b.packages| && b.packages[k].name == ENTRY
    ensures var s' := Next(b, Next(b, s, OurStep), OurStep); s'.moved && !AllPresent(b, s'.registry)
  {
    assert (b.packages[k].name, b.version) !in s.registry.content;
    assert (b.packages[k + 1].name, b.version) !in s.registry.content;
    var s1 := Next(b, s, OurStep);
    assert s1.point == Upload(k) && s1.registry == s.registry;
    assert !Present(b, Next(b, s1, OurStep).registry, k + 1);
  }

  /**
   * The manifest loader accepts the dist-tag `latest`. A bundle tagged so, with the entry package
   * anywhere but last, moves `latest` before its other packages exist.
   */
  lemma EarlyLatest(b: Bundle) returns (moves: seq<Move>)
    requires Loadable(b) && !TagsEntryLast(b)
    ensures History(b, Fresh(), moves)
    ensures After(b, Fresh(), moves).moved && !AllPresent(b, After(b, Fresh(), moves).registry)
  {
    var k :| 0 <= k < |b.packages| - 1 && b.packages[k].name == ENTRY;
    moves := ReachInspect(b, k);
    UploadMovesLatest(b, After(b, Fresh(), moves), k);
    moves := TakeStep(b, moves);
    moves := TakeStep(b, moves);
  }

  /** The exact condition under which `latest` moves only onto a complete bundle. */
  lemma SafetyIsExact(b: Bundle)
    requires Loadable(b)
    ensures TagsEntryLast(b) <==>
      forall r, moves :: History(b, r, moves) && After(b, r, moves).moved ==> AllPresent(b, After(b, r, moves).registry)
  {
    if TagsEntryLast(b) {
      forall r, moves | History(b, r, moves) && After(b, r, moves).moved
        ensures AllPresent(b, After(b, r, moves).registry)
      {
        LatestMovesLast(b, r, moves);
      }
    } else {
      var moves := EarlyLatest(b);
    }
  }
}
