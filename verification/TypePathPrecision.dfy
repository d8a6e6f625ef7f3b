/** What sharing one visited set between branches costs: exactly when a walk reports a provable miss. */
module TypePathPrecision {
  import opened Wrappers
  import opened CatalogNames
  import opened TypePaths

  // ---------------------------------------------------------------- the walk without a visited set

  function Joined(a: Option<seq<Key>>, b: Option<seq<Key>>): Option<seq<Key>> {
    if a.None? || b.None? then None else Some(a.value + b.value)
  }

  function Entry(w: World, t: Target, steps: seq<Step>): seq<Key> {
    if Guarded(w, t) then [(t.id, |steps|)] else []
  }

  /** The declarations the same walk enters when it remembers nothing, in order. */
  function Consulted(fuel: nat, w: World, t: Target, steps: seq<Step>): Option<seq<Key>>
    decreases fuel, 0
  {
    if fuel == 0 then None
    else if steps == [] then Some([])
    else Joined(Some(Entry(w, t, steps)), ConsultedBeyond(fuel - 1, w, MoveFrom(w, t, steps), steps))
  }

  function ConsultedBeyond(fuel: nat, w: World, m: Move, steps: seq<Step>): Option<seq<Key>>
    decreases fuel, |Successors(m)| + 2
  {
    match m
    case Answer(_) => Some([])
    case Go(target, rest) => Consulted(fuel, w, target, rest)
    case AnyOf(targets) => ConsultedAll(fuel, w, targets, steps)
    case EachOf(targets) => ConsultedAll(fuel, w, targets, steps)
  }

  function ConsultedAll(fuel: nat, w: World, targets: seq<Option<Target>>, steps: seq<Step>): Option<seq<Key>>
    decreases fuel, |targets| + 1
  {
    if targets == [] then Some([])
    else
      var front, last := targets[..|targets| - 1], targets[|targets| - 1];
      Joined(ConsultedAll(fuel, w, front, steps),
        if last.None? then Some([]) else Consulted(fuel, w, last.value, steps))
  }

  ghost function KeySet(keys: seq<Key>): set<Key> {
    set k | k in keys
  }

  /** No declaration is entered twice with as many steps left, or again after an earlier walk. */
  ghost predicate Once(keys: seq<Key>, seen: set<Key>) {
    && (forall i, j :: 0 <= i < j < |keys| ==> keys[i] != keys[j])
    && forall k :: k in keys ==> k !in seen
  }

  lemma OnceSplits(a: seq<Key>, b: seq<Key>, seen: set<Key>)
    ensures Once(a + b, seen) <==> Once(a, seen) && Once(b, seen + KeySet(a))
    ensures KeySet(a + b) == KeySet(a) + KeySet(b)
  {
    if Once(a + b, seen) {
      forall k | k in b ensures k !in seen + KeySet(a) {
        var j :| 0 <= j < |b| && b[j] == k;
        assert (a + b)[|a| + j] == k && k in a + b;
        assert forall i :: 0 <= i < |a| ==> (a + b)[i] == a[i];
      }
      forall i, j | 0 <= i < j < |b| ensures b[i] != b[j] {
        assert (a + b)[|a| + i] == b[i] && (a + b)[|a| + j] == b[j];
      }
      forall i, j | 0 <= i < j < |a| ensures a[i] != a[j] {
        assert (a + b)[i] == a[i] && (a + b)[j] == a[j];
      }
    }
    if Once(a, seen) && Once(b, seen + KeySet(a)) {
      forall i, j | 0 <= i < j < |a + b| ensures (a + b)[i] != (a + b)[j] {
        if i < |a| <= j {
          assert a[i] in KeySet(a) && b[j - |a|] in b;
        }
      }
    }
  }

  lemma EntryOnce(w: World, t: Target, steps: seq<Step>, seen: set<Key>)
    ensures Once(Entry(w, t, steps), seen) <==> !Met(w, t, steps, seen)
    ensures Mark(w, t, steps, seen) == seen + KeySet(Entry(w, t, steps))
  {
  }

  // ---------------------------------------------------------------- a walk enters no more than without the set

  lemma {:induction false} WalkEntersConsulted(fuel: nat, w: World, t: Target, steps: seq<Step>, seen: set<Key>)
    requires Consulted(fuel, w, t, steps).Some?
    ensures var r := Walk(fuel, w, t, steps, seen);
      r.Done? && r.seen <= seen + KeySet(Consulted(fuel, w, t, steps).value)
    decreases fuel, 0
  {
    if steps == [] || Met(w, t, steps, seen) {
    } else {
      EntryOnce(w, t, steps, seen);
      var m := MoveFrom(w, t, steps);
      FollowEntersConsulted(fuel - 1, w, m, steps, Mark(w, t, steps, seen));
      OnceSplits(Entry(w, t, steps), ConsultedBeyond(fuel - 1, w, m, steps).value, seen);
    }
  }

  lemma {:induction false} FollowEntersConsulted(fuel: nat, w: World, m: Move, steps: seq<Step>, seen: set<Key>)
    requires ConsultedBeyond(fuel, w, m, steps).Some?
    ensures var r := Follow(fuel, w, m, steps, seen);
      r.Done? && r.seen <= seen + KeySet(ConsultedBeyond(fuel, w, m, steps).value)
    decreases fuel, |Successors(m)| + 2
  {
    match m
    case Answer(_) =>
    case Go(target, rest) => WalkEntersConsulted(fuel, w, target, rest, seen);
    case AnyOf(targets) => WalkAllEntersConsulted(fuel, w, targets, steps, seen);
    case EachOf(targets) => WalkAllEntersConsulted(fuel, w, targets, steps, seen);
  }

  lemma {:induction false} WalkAllEntersConsulted(fuel: nat, w: World, targets: seq<Option<Target>>, steps: seq<Step>,
          seen: set<Key>)
    requires ConsultedAll(fuel, w, targets, steps).Some?
    ensures var r := WalkAll(fuel, w, targets, steps, seen);
      r.Done? && r.seen <= seen + KeySet(ConsultedAll(fuel, w, targets, steps).value)
    decreases fuel, |targets| + 1
  {
    if targets == [] {
    } else {
      var front, last := targets[..|targets| - 1], targets[|targets| - 1];
      WalkAllEntersConsulted(fuel, w, front, steps, seen);
      if last.Some? {
        WalkEntersConsulted(fuel, w, last.value, steps, WalkAll(fuel, w, front, steps, seen).seen);
        OnceSplits(ConsultedAll(fuel, w, front, steps).value, Consulted(fuel, w, last.value, steps).value, seen);
      }
    }
  }

  // ---------------------------------------------------------------- a reported miss entered everything once

  ghost predicate AllMissing(verdicts: seq<Lookup>) {
    forall i :: 0 <= i < |verdicts| ==> verdicts[i] == Missing
  }

  lemma MissingNeedsAll(verdicts: seq<Lookup>)
    ensures Combine(verdicts) == Missing ==> AllMissing(verdicts)
    ensures Agree(verdicts) == Missing ==> AllMissing(verdicts)
    ensures AllMissing(verdicts) ==> Combine(verdicts) == Missing
    ensures AllMissing(verdicts) && verdicts != [] ==> Agree(verdicts) == Missing
  {
    if Combine(verdicts) == Missing || Agree(verdicts) == Missing {
      forall i | 0 <= i < |verdicts| ensures verdicts[i] == Missing {
        assert verdicts[i] in verdicts;
      }
    }
    if AllMissing(verdicts) && verdicts != [] {
      assert verdicts[0] in verdicts;
    }
  }

  lemma {:induction false} MissEntersOnce(fuel: nat, w: World, t: Target, steps: seq<Step>, seen: set<Key>)
    requires var r := Walk(fuel, w, t, steps, seen); r.Done? && r.value == Missing
    ensures Consulted(fuel, w, t, steps).Some? && Once(Consulted(fuel, w, t, steps).value, seen)
    ensures Walk(fuel, w, t, steps, seen).seen == seen + KeySet(Consulted(fuel, w, t, steps).value)
    decreases fuel, 0
  {
    EntryOnce(w, t, steps, seen);
    var m := MoveFrom(w, t, steps);
    FollowedMissEntersOnce(fuel - 1, w, m, steps, Mark(w, t, steps, seen));
    OnceSplits(Entry(w, t, steps), ConsultedBeyond(fuel - 1, w, m, steps).value, seen);
  }

  lemma {:induction false} FollowedMissEntersOnce(fuel: nat, w: World, m: Move, steps: seq<Step>, seen: set<Key>)
    requires var r := Follow(fuel, w, m, steps, seen); r.Done? && r.value == Missing
    ensures ConsultedBeyond(fuel, w, m, steps).Some? && Once(ConsultedBeyond(fuel, w, m, steps).value, seen)
    ensures Follow(fuel, w, m, steps, seen).seen == seen + KeySet(ConsultedBeyond(fuel, w, m, steps).value)
    decreases fuel, |Successors(m)| + 2
  {
    match m
    case Answer(_) =>
    case Go(target, rest) => MissEntersOnce(fuel, w, target, rest, seen);
    case AnyOf(targets) =>
      MissingNeedsAll(WalkAll(fuel, w, targets, steps, seen).value);
      MissesEnterOnce(fuel, w, targets, steps, seen);
    case EachOf(targets) =>
      MissingNeedsAll(WalkAll(fuel, w, targets, steps, seen).value);
      MissesEnterOnce(fuel, w, targets, steps, seen);
  }

  lemma {:induction false} MissesEnterOnce(fuel: nat, w: World, targets: seq<Option<Target>>, steps: seq<Step>,
          seen: set<Key>)
    requires var r := WalkAll(fuel, w, targets, steps, seen); r.Done? && AllMissing(r.value)
    ensures ConsultedAll(fuel, w, targets, steps).Some? && Once(ConsultedAll(fuel, w, targets, steps).value, seen)
    ensures WalkAll(fuel, w, targets, steps, seen).seen == seen + KeySet(ConsultedAll(fuel, w, targets, steps).value)
    decreases fuel, |targets| + 1
  {
    if targets == [] {
    } else {
      var front, last := targets[..|targets| - 1], targets[|targets| - 1];
      var before, all := WalkAll(fuel, w, front, steps, seen), WalkAll(fuel, w, targets, steps, seen).value;
      assert all[|all| - 1] == Missing && forall i :: 0 <= i < |before.value| ==> before.value[i] == all[i];
      MissesEnterOnce(fuel, w, front, steps, seen);
      MissEntersOnce(fuel, w, last.value, steps, before.seen);
      OnceSplits(ConsultedAll(fuel, w, front, steps).value, Consulted(fuel, w, last.value, steps).value, seen);
    }
  }

  // ---------------------------------------------------------------- a miss that enters everything once is reported

  lemma {:induction false} LackIsReported(fuel: nat, h: nat, w: World, t: Target, steps: seq<Step>, seen: set<Key>)
    requires Lacks(h, w, t, steps)
    requires Consulted(fuel, w, t, steps).Some? && Once(Consulted(fuel, w, t, steps).value, seen)
    ensures var r := Walk(fuel, w, t, steps, seen); r.Done? && r.value == Missing
    decreases fuel, 0
  {
    DerivationsMove(h - 1, w, t, steps);
    EntryOnce(w, t, steps, seen);
    var m := MoveFrom(w, t, steps);
    OnceSplits(Entry(w, t, steps), ConsultedBeyond(fuel - 1, w, m, steps).value, seen);
    FollowedLackIsReported(fuel - 1, h - 1, w, m, steps, Mark(w, t, steps, seen));
  }

  lemma {:induction false} FollowedLackIsReported(fuel: nat, h: nat, w: World, m: Move, steps: seq<Step>,
          seen: set<Key>)
    requires LacksBeyond(h, w, m, steps)
    requires ConsultedBeyond(fuel, w, m, steps).Some? && Once(ConsultedBeyond(fuel, w, m, steps).value, seen)
    ensures var r := Follow(fuel, w, m, steps, seen); r.Done? && r.value == Missing
    decreases fuel, |Successors(m)| + 2
  {
    match m
    case Answer(_) =>
    case Go(target, rest) => LackIsReported(fuel, h, w, target, rest, seen);
    case AnyOf(targets) =>
      LacksAreReported(fuel, h, w, targets, steps, seen);
      MissingNeedsAll(WalkAll(fuel, w, targets, steps, seen).value);
    case EachOf(targets) =>
      LacksAreReported(fuel, h, w, targets, steps, seen);
      MissingNeedsAll(WalkAll(fuel, w, targets, steps, seen).value);
  }

  lemma {:induction false} LacksAreReported(fuel: nat, h: nat, w: World, targets: seq<Option<Target>>,
          steps: seq<Step>, seen: set<Key>)
    requires AllLack(h, w, targets, steps)
    requires ConsultedAll(fuel, w, targets, steps).Some? && Once(ConsultedAll(fuel, w, targets, steps).value, seen)
    ensures var r := WalkAll(fuel, w, targets, steps, seen); r.Done? && AllMissing(r.value)
    decreases fuel, |targets| + 1
  {
    if targets == [] {
    } else {
      var front, last := targets[..|targets| - 1], targets[|targets| - 1];
      OnceSplits(ConsultedAll(fuel, w, front, steps).value, Consulted(fuel, w, last.value, steps).value, seen);
      LacksAreReported(fuel, h, w, front, steps, seen);
      WalkAllEntersConsulted(fuel, w, front, steps, seen);
      LackIsReported(fuel, h, w, last.value, steps, WalkAll(fuel, w, front, steps, seen).seen);
    }
  }

  /** A derivation of a miss looks at everything the walk would, so a stack of its height suffices. */
  lemma {:induction false} LackIsConsulted(fuel: nat, h: nat, w: World, t: Target, steps: seq<Step>)
    requires Lacks(h, w, t, steps) && h <= fuel
    ensures Consulted(fuel, w, t, steps).Some?
    decreases fuel, 0
  {
    DerivationsMove(h - 1, w, t, steps);
    var m := MoveFrom(w, t, steps);
    match m {
      case Answer(_) =>
      case Go(target, rest) => LackIsConsulted(fuel - 1, h - 1, w, target, rest);
      case AnyOf(targets) => LacksAreConsulted(fuel - 1, h - 1, w, targets, steps);
      case EachOf(targets) => LacksAreConsulted(fuel - 1, h - 1, w, targets, steps);
    }
  }

  lemma {:induction false} LacksAreConsulted(fuel: nat, h: nat, w: World, targets: seq<Option<Target>>,
          steps: seq<Step>)
    requires AllLack(h, w, targets, steps) && h <= fuel
    ensures ConsultedAll(fuel, w, targets, steps).Some?
    decreases fuel, |targets| + 1
  {
    if targets == [] {
    } else {
      LacksAreConsulted(fuel, h, w, targets[..|targets| - 1], steps);
      LackIsConsulted(fuel, h, w, targets[|targets| - 1].value, steps);
    }
  }

  // ---------------------------------------------------------------- the exact condition

  ghost predicate IsMissing(fuel: nat, w: World, t: Target, steps: seq<Step>, seen: set<Key>) {
    Walk(fuel, w, t, steps, seen).Done? && Walk(fuel, w, t, steps, seen).value == Missing
  }

  /** Some derivation shows that the path leaves the declared members. */
  ghost predicate ProvablyAbsent(w: World, t: Target, steps: seq<Step>) {
    exists h: nat :: Lacks(h, w, t, steps)
  }

  /**
   * With a given stack, the walk reports a miss exactly when the path is provably absent and the walk
   * that remembers nothing would enter no declaration twice, nor one visited earlier.
   */
  lemma MissingIffOnce(fuel: nat, w: World, t: Target, steps: seq<Step>, seen: set<Key>)
    ensures IsMissing(fuel, w, t, steps, seen) <==>
      && ProvablyAbsent(w, t, steps)
      && Consulted(fuel, w, t, steps).Some? && Once(Consulted(fuel, w, t, steps).value, seen)
  {
    if IsMissing(fuel, w, t, steps, seen) {
      WalkIsSound(fuel, w, t, steps, seen);
      assert Lacks(fuel, w, t, steps);
      MissEntersOnce(fuel, w, t, steps, seen);
    } else if ProvablyAbsent(w, t, steps) && Consulted(fuel, w, t, steps).Some? &&
              Once(Consulted(fuel, w, t, steps).value, seen) {
      var h: nat :| Lacks(h, w, t, steps);
      LackIsReported(fuel, h, w, t, steps, seen);
    }
  }

  /** A provable miss is reported, on some stack and then on every one as deep as its derivation, or never. */
  lemma ProvableMissIsReportedIffOnce(h: nat, fuel: nat, w: World, t: Target, steps: seq<Step>, seen: set<Key>)
    requires Lacks(h, w, t, steps) && h <= fuel
    ensures Consulted(fuel, w, t, steps).Some?
    ensures IsMissing(fuel, w, t, steps, seen) <==> Once(Consulted(fuel, w, t, steps).value, seen)
    ensures !IsMissing(fuel, w, t, steps, seen) ==>
      Walk(fuel, w, t, steps, seen).Done? && Walk(fuel, w, t, steps, seen).value == Unknown
  {
    assert ProvablyAbsent(w, t, steps);
    LackIsConsulted(fuel, h, w, t, steps);
    MissingIffOnce(fuel, w, t, steps, seen);
    WalkEntersConsulted(fuel, w, t, steps, seen);
    WalkIsSound(fuel, w, t, steps, seen);
    if Walk(fuel, w, t, steps, seen).value == Found {
      VerdictsExclude(fuel, h, w, t, steps);
    }
  }

  // ---------------------------------------------------------------- presence

  /** A path that exists is found when the walk that remembers nothing enters everything once. */
  lemma {:induction false} PresenceIsFound(fuel: nat, h: nat, w: World, t: Target, steps: seq<Step>, seen: set<Key>)
    requires Has(h, w, t, steps)
    requires Consulted(fuel, w, t, steps).Some? && Once(Consulted(fuel, w, t, steps).value, seen)
    ensures var r := Walk(fuel, w, t, steps, seen); r.Done? && r.value == Found
    decreases fuel, 0
  {
    if steps == [] {
    } else {
      DerivationsMove(h - 1, w, t, steps);
      EntryOnce(w, t, steps, seen);
      var m := MoveFrom(w, t, steps);
      OnceSplits(Entry(w, t, steps), ConsultedBeyond(fuel - 1, w, m, steps).value, seen);
      FollowedPresenceIsFound(fuel - 1, h - 1, w, m, steps, Mark(w, t, steps, seen));
    }
  }

  lemma {:induction false} FollowedPresenceIsFound(fuel: nat, h: nat, w: World, m: Move, steps: seq<Step>,
          seen: set<Key>)
    requires HasBeyond(h, w, m, steps)
    requires ConsultedBeyond(fuel, w, m, steps).Some? && Once(ConsultedBeyond(fuel, w, m, steps).value, seen)
    ensures var r := Follow(fuel, w, m, steps, seen); r.Done? && r.value == Found
    decreases fuel, |Successors(m)| + 2
  {
    match m
    case Answer(_) =>
    case Go(target, rest) => PresenceIsFound(fuel, h, w, target, rest, seen);
    case AnyOf(targets) =>
      var i :| 0 <= i < |targets| && targets[i].Some? && Has(h, w, targets[i].value, steps);
      PresenceAmongIsFound(fuel, h, w, targets, steps, seen, i);
      assert WalkAll(fuel, w, targets, steps, seen).value[i] == Found;
    case EachOf(targets) =>
      WalkAllEntersConsulted(fuel, w, targets, steps, seen);
      forall i | 0 <= i < |targets| ensures WalkAll(fuel, w, targets, steps, seen).value[i] == Found {
        PresenceAmongIsFound(fuel, h, w, targets, steps, seen, i);
      }
  }

  lemma {:induction false} PresenceAmongIsFound(fuel: nat, h: nat, w: World, targets: seq<Option<Target>>,
          steps: seq<Step>, seen: set<Key>, i: nat)
    requires i < |targets| && targets[i].Some? && Has(h, w, targets[i].value, steps)
    requires ConsultedAll(fuel, w, targets, steps).Some? && Once(ConsultedAll(fuel, w, targets, steps).value, seen)
    ensures var r := WalkAll(fuel, w, targets, steps, seen); r.Done? && r.value[i] == Found
    decreases fuel, |targets| + 1
  {
    var front, last := targets[..|targets| - 1], targets[|targets| - 1];
    WalkAllEntersConsulted(fuel, w, targets, steps, seen);
    WalkAllEntersConsulted(fuel, w, front, steps, seen);
    if last.Some? {
      OnceSplits(ConsultedAll(fuel, w, front, steps).value, Consulted(fuel, w, last.value, steps).value, seen);
    } else {
      OnceSplits(ConsultedAll(fuel, w, front, steps).value, [], seen);
    }
    if i < |front| {
      PresenceAmongIsFound(fuel, h, w, front, steps, seen, i);
    } else {
      PresenceIsFound(fuel, h, w, last.value, steps, WalkAll(fuel, w, front, steps, seen).seen);
    }
  }

  // ---------------------------------------------------------------- a condition to check beforehand

  /** Where the `choices[0]`-th branch, then its `choices[1]`-th, and so on, leads. */
  function Position(w: World, t: Target, steps: seq<Step>, choices: seq<nat>): Option<(Target, seq<Step>)>
    decreases |choices|
  {
    if choices == [] then Some((t, steps))
    else if steps == [] then None
    else PositionBeyond(w, MoveFrom(w, t, steps), steps, choices)
  }

  function PositionBeyond(w: World, m: Move, steps: seq<Step>, choices: seq<nat>): Option<(Target, seq<Step>)>
    requires choices != []
    decreases |choices|, 0
  {
    var targets := Successors(m);
    if choices[0] < |targets| && targets[choices[0]].Some?
    then Position(w, targets[choices[0]].value, StepsAfter(m, steps), choices[1..]) else None
  }

  /** The declaration those choices lead to, with the number of steps left there. */
  function Reached(w: World, t: Target, steps: seq<Step>, choices: seq<nat>): Option<Key> {
    var p := Position(w, t, steps, choices);
    if p.Some? && p.value.1 != [] && Guarded(w, p.value.0) then Some((p.value.0.id, |p.value.1|)) else None
  }

  /** No declaration is reached along two reference paths with the same number of steps left. */
  ghost predicate ReachedOnce(w: World, t: Target, steps: seq<Step>) {
    forall a, b :: a != b && Reached(w, t, steps, a).Some? ==> Reached(w, t, steps, a) != Reached(w, t, steps, b)
  }

  ghost predicate ReachedFrom(w: World, t: Target, steps: seq<Step>, k: Key) {
    exists choices :: Reached(w, t, steps, choices) == Some(k)
  }

  /** One step further back, the same position is reached by one choice more. */
  lemma PositionThrough(w: World, t: Target, steps: seq<Step>, i: nat, choices: seq<nat>)
    requires steps != [] && i < |Successors(MoveFrom(w, t, steps))| && Successors(MoveFrom(w, t, steps))[i].Some?
    ensures var m := MoveFrom(w, t, steps);
      Position(w, t, steps, [i] + choices) == Position(w, Successors(m)[i].value, StepsAfter(m, steps), choices)
  {
    var m, longer := MoveFrom(w, t, steps), [i] + choices;
    assert longer[1..] == choices;
    assert Position(w, t, steps, longer) == PositionBeyond(w, m, steps, longer);
  }

  lemma ReachedThrough(w: World, t: Target, steps: seq<Step>, i: nat, choices: seq<nat>)
    requires steps != [] && i < |Successors(MoveFrom(w, t, steps))| && Successors(MoveFrom(w, t, steps))[i].Some?
    ensures var m := MoveFrom(w, t, steps);
      Reached(w, t, steps, [i] + choices) == Reached(w, Successors(m)[i].value, StepsAfter(m, steps), choices)
  {
    PositionThrough(w, t, steps, i, choices);
  }

  /** The branches reach disjoint declarations, each of them only once. */
  ghost predicate BranchesApart(w: World, targets: seq<Option<Target>>, steps: seq<Step>) {
    && (forall i :: 0 <= i < |targets| && targets[i].Some? ==> ReachedOnce(w, targets[i].value, steps))
    && (forall i, j, k :: 0 <= i < j < |targets| && targets[i].Some? && targets[j].Some? ==>
      !ReachedFrom(w, targets[i].value, steps, k) || !ReachedFrom(w, targets[j].value, steps, k))
  }

  lemma BranchesStayApart(w: World, t: Target, steps: seq<Step>)
    requires steps != [] && ReachedOnce(w, t, steps)
    ensures var m := MoveFrom(w, t, steps); BranchesApart(w, Successors(m), StepsAfter(m, steps))
  {
    var m := MoveFrom(w, t, steps);
    var targets, rest := Successors(m), StepsAfter(m, steps);
    forall i, a, b | 0 <= i < |targets| && targets[i].Some? && a != b && Reached(w, targets[i].value, rest, a).Some?
      ensures Reached(w, targets[i].value, rest, a) != Reached(w, targets[i].value, rest, b)
    {
      ReachedThrough(w, t, steps, i, a);
      ReachedThrough(w, t, steps, i, b);
      assert ([i] + a)[1..] == a && ([i] + b)[1..] == b;
    }
    forall i, j, k | 0 <= i < j < |targets| && targets[i].Some? && targets[j].Some? &&
        ReachedFrom(w, targets[i].value, rest, k)
      ensures !ReachedFrom(w, targets[j].value, rest, k)
    {
      var a :| Reached(w, targets[i].value, rest, a) == Some(k);
      ReachedThrough(w, t, steps, i, a);
      if b :| Reached(w, targets[j].value, rest, b) == Some(k) {
        assert ([i] + a)[0] != ([j] + b)[0];
        ReachedThrough(w, t, steps, j, b);
      }
    }
  }

  /** The target's own entry is not reached again behind any branch. */
  lemma EntryStaysApart(w: World, t: Target, steps: seq<Step>, i: nat, k: Key)
    requires steps != [] && ReachedOnce(w, t, steps)
    requires var m := MoveFrom(w, t, steps);
      i < |Successors(m)| && Successors(m)[i].Some? && ReachedFrom(w, Successors(m)[i].value, StepsAfter(m, steps), k)
    ensures ReachedFrom(w, t, steps, k) && k !in Entry(w, t, steps)
  {
    var m := MoveFrom(w, t, steps);
    var c :| Reached(w, Successors(m)[i].value, StepsAfter(m, steps), c) == Some(k);
    ReachedThrough(w, t, steps, i, c);
    assert Reached(w, t, steps, []) == (if Guarded(w, t) then Some((t.id, |steps|)) else None);
    assert [i] + c != [];
  }

  lemma {:induction false} ReachedOnceIsConsultedOnce(fuel: nat, w: World, t: Target, steps: seq<Step>)
    requires ReachedOnce(w, t, steps) && Consulted(fuel, w, t, steps).Some?
    ensures Once(Consulted(fuel, w, t, steps).value, {})
    ensures forall k :: k in Consulted(fuel, w, t, steps).value ==> ReachedFrom(w, t, steps, k)
    decreases fuel, 0
  {
    if steps == [] {
    } else {
      var m := MoveFrom(w, t, steps);
      var entry, beyond := Entry(w, t, steps), ConsultedBeyond(fuel - 1, w, m, steps).value;
      BranchesStayApart(w, t, steps);
      ApartIsConsultedOnce(fuel - 1, w, m, steps);
      forall k | k in beyond ensures ReachedFrom(w, t, steps, k) && k !in entry {
        var i: nat :| i < |Successors(m)| && Successors(m)[i].Some? &&
          ReachedFrom(w, Successors(m)[i].value, StepsAfter(m, steps), k);
        EntryStaysApart(w, t, steps, i, k);
      }
      forall k | k in entry ensures ReachedFrom(w, t, steps, k) {
        assert Reached(w, t, steps, []) == Some(k);
      }
      OnceSplits(entry, beyond, {});
    }
  }

  ghost predicate ReachedAmong(w: World, targets: seq<Option<Target>>, steps: seq<Step>, k: Key) {
    exists i: nat :: i < |targets| && targets[i].Some? && ReachedFrom(w, targets[i].value, steps, k)
  }

  lemma {:induction false} ApartIsConsultedOnce(fuel: nat, w: World, m: Move, steps: seq<Step>)
    requires BranchesApart(w, Successors(m), StepsAfter(m, steps)) && ConsultedBeyond(fuel, w, m, steps).Some?
    ensures Once(ConsultedBeyond(fuel, w, m, steps).value, {})
    ensures forall k :: k in ConsultedBeyond(fuel, w, m, steps).value ==>
      ReachedAmong(w, Successors(m), StepsAfter(m, steps), k)
    decreases fuel, |Successors(m)| + 2
  {
    match m
    case Answer(_) =>
    case Go(target, rest) =>
      assert Successors(m)[0] == Some(target);
      ReachedOnceIsConsultedOnce(fuel, w, target, rest);
    case AnyOf(targets) => AllApartAreConsultedOnce(fuel, w, targets, steps);
    case EachOf(targets) => AllApartAreConsultedOnce(fuel, w, targets, steps);
  }

  lemma {:induction false} AllApartAreConsultedOnce(fuel: nat, w: World, targets: seq<Option<Target>>, steps: seq<Step>)
    requires BranchesApart(w, targets, steps) && ConsultedAll(fuel, w, targets, steps).Some?
    ensures Once(ConsultedAll(fuel, w, targets, steps).value, {})
    ensures forall k :: k in ConsultedAll(fuel, w, targets, steps).value ==> ReachedAmong(w, targets, steps, k)
    decreases fuel, |targets| + 1
  {
    if targets == [] {
    } else {
      var n := |targets| - 1;
      var front, last := targets[..n], targets[n];
      var before := ConsultedAll(fuel, w, front, steps).value;
      AllApartAreConsultedOnce(fuel, w, front, steps);
      forall k | k in before ensures ReachedAmong(w, targets, steps, k) {
        var i: nat :| i < |front| && front[i].Some? && ReachedFrom(w, front[i].value, steps, k);
        assert targets[i] == front[i];
      }
      if last.Some? {
        ReachedOnceIsConsultedOnce(fuel, w, last.value, steps);
        var here := Consulted(fuel, w, last.value, steps).value;
        forall k | k in here ensures k !in before {
        }
        OnceSplits(before, here, {});
      } else {
        OnceSplits(before, [], {});
      }
    }
  }

  /** A branch's entries are among those of the whole list, and once there only when once in the list. */
  lemma {:induction false} BranchIsConsulted(fuel: nat, w: World, targets: seq<Option<Target>>, steps: seq<Step>,
          i: nat)
    requires ConsultedAll(fuel, w, targets, steps).Some? && i < |targets| && targets[i].Some?
    ensures Consulted(fuel, w, targets[i].value, steps).Some?
    ensures KeySet(Consulted(fuel, w, targets[i].value, steps).value) <=
            KeySet(ConsultedAll(fuel, w, targets, steps).value)
    ensures Once(ConsultedAll(fuel, w, targets, steps).value, {}) ==>
      Once(Consulted(fuel, w, targets[i].value, steps).value, {})
    decreases |targets|
  {
    var n := |targets| - 1;
    var front, last := targets[..n], targets[n];
    var before := ConsultedAll(fuel, w, front, steps).value;
    var here := if last.None? then [] else Consulted(fuel, w, last.value, steps).value;
    OnceSplits(before, here, {});
    if i >= n {
    } else {
      BranchIsConsulted(fuel, w, front, steps, i);
    }
  }

  lemma {:induction false} BranchesShareNothing(fuel: nat, w: World, targets: seq<Option<Target>>, steps: seq<Step>,
          i: nat, j: nat, k: Key)
    requires ConsultedAll(fuel, w, targets, steps).Some? && Once(ConsultedAll(fuel, w, targets, steps).value, {})
    requires i < j < |targets| && targets[i].Some? && targets[j].Some?
    requires Consulted(fuel, w, targets[i].value, steps).Some? && k in Consulted(fuel, w, targets[i].value, steps).value
    ensures Consulted(fuel, w, targets[j].value, steps).Some? && k !in Consulted(fuel, w, targets[j].value, steps).value
    decreases |targets|
  {
    var n := |targets| - 1;
    var front, last := targets[..n], targets[n];
    var before := ConsultedAll(fuel, w, front, steps).value;
    var here := if last.None? then [] else Consulted(fuel, w, last.value, steps).value;
    OnceSplits(before, here, {});
    if j < n {
      BranchesShareNothing(fuel, w, front, steps, i, j, k);
    } else {
      BranchIsConsulted(fuel, w, front, steps, i);
      assert k in KeySet(before);
    }
  }

  /** The same two facts about the branches of any move. */
  lemma MoveIsConsulted(fuel: nat, w: World, m: Move, steps: seq<Step>, i: nat)
    requires ConsultedBeyond(fuel, w, m, steps).Some? && i < |Successors(m)| && Successors(m)[i].Some?
    ensures var branch := Consulted(fuel, w, Successors(m)[i].value, StepsAfter(m, steps));
      && branch.Some? && KeySet(branch.value) <= KeySet(ConsultedBeyond(fuel, w, m, steps).value)
      && (Once(ConsultedBeyond(fuel, w, m, steps).value, {}) ==> Once(branch.value, {}))
  {
    if !m.Go? {
      BranchIsConsulted(fuel, w, m.targets, steps, i);
    }
  }

  /** Whatever the choices reach, the walk that remembers nothing enters. */
  lemma {:induction false} ReachedIsConsulted(fuel: nat, w: World, t: Target, steps: seq<Step>, choices: seq<nat>,
          k: Key)
    requires Consulted(fuel, w, t, steps).Some? && Reached(w, t, steps, choices) == Some(k)
    ensures k in Consulted(fuel, w, t, steps).value
    decreases |choices|
  {
    if choices == [] {
      assert k in Entry(w, t, steps);
    } else {
      var m, i := MoveFrom(w, t, steps), choices[0];
      assert choices == [i] + choices[1..];
      assert PositionBeyond(w, m, steps, choices).Some?;
      ReachedThrough(w, t, steps, i, choices[1..]);
      MoveIsConsulted(fuel - 1, w, m, steps, i);
      ReachedIsConsulted(fuel - 1, w, Successors(m)[i].value, StepsAfter(m, steps), choices[1..], k);
      assert k in KeySet(ConsultedBeyond(fuel - 1, w, m, steps).value);
    }
  }

  /** What the empty choice reaches is the entry; what another one reaches lies beyond the first move. */
  lemma BeyondOrEntry(fuel: nat, w: World, t: Target, steps: seq<Step>, c: seq<nat>, k: Key)
    requires steps != [] && Consulted(fuel, w, t, steps).Some? && Reached(w, t, steps, c) == Some(k)
    ensures c == [] ==> k in Entry(w, t, steps)
    ensures var m := MoveFrom(w, t, steps);
      c != [] ==>
        && c[0] < |Successors(m)| && Successors(m)[c[0]].Some?
        && Reached(w, Successors(m)[c[0]].value, StepsAfter(m, steps), c[1..]) == Some(k)
        && k in ConsultedBeyond(fuel - 1, w, m, steps).value
  {
    if c != [] {
      var m := MoveFrom(w, t, steps);
      assert c == [c[0]] + c[1..];
      assert PositionBeyond(w, m, steps, c).Some?;
      ReachedThrough(w, t, steps, c[0], c[1..]);
      MoveIsConsulted(fuel - 1, w, m, steps, c[0]);
      ReachedIsConsulted(fuel - 1, w, Successors(m)[c[0]].value, StepsAfter(m, steps), c[1..], k);
      assert k in KeySet(ConsultedBeyond(fuel - 1, w, m, steps).value);
    }
  }

  lemma DifferentBranches(fuel: nat, w: World, m: Move, steps: seq<Step>, i: nat, j: nat, a: seq<nat>, b: seq<nat>,
          k: Key)
    requires ConsultedBeyond(fuel, w, m, steps).Some? && Once(ConsultedBeyond(fuel, w, m, steps).value, {})
    requires i < j < |Successors(m)| && Successors(m)[i].Some? && Successors(m)[j].Some?
    requires Reached(w, Successors(m)[i].value, StepsAfter(m, steps), a) == Some(k)
    ensures Reached(w, Successors(m)[j].value, StepsAfter(m, steps), b) != Some(k)
  {
    MoveIsConsulted(fuel, w, m, steps, i);
    MoveIsConsulted(fuel, w, m, steps, j);
    ReachedIsConsulted(fuel, w, Successors(m)[i].value, steps, a, k);
    BranchesShareNothing(fuel, w, m.targets, steps, i, j, k);
    if Reached(w, Successors(m)[j].value, steps, b) == Some(k) {
      ReachedIsConsulted(fuel, w, Successors(m)[j].value, steps, b, k);
    }
  }

  lemma {:induction false} ConsultedOnceIsReachedOnce(fuel: nat, w: World, t: Target, steps: seq<Step>, a: seq<nat>,
          b: seq<nat>, k: Key)
    requires Consulted(fuel, w, t, steps).Some? && Once(Consulted(fuel, w, t, steps).value, {})
    requires Reached(w, t, steps, a) == Some(k) && Reached(w, t, steps, b) == Some(k)
    ensures a == b
    decreases |a|
  {
    var entry, m := Entry(w, t, steps), MoveFrom(w, t, steps);
    if a == [] && b == [] {
    } else {
      var beyond := ConsultedBeyond(fuel - 1, w, m, steps).value;
      OnceSplits(entry, beyond, {});
      BeyondOrEntry(fuel, w, t, steps, a, k);
      BeyondOrEntry(fuel, w, t, steps, b, k);
      var i, j := a[0], b[0];
      if i == j {
        MoveIsConsulted(fuel - 1, w, m, steps, i);
        ConsultedOnceIsReachedOnce(fuel - 1, w, Successors(m)[i].value, StepsAfter(m, steps), a[1..], b[1..], k);
        assert a == [i] + a[1..] && b == [i] + b[1..];
      } else {
        DifferentBranches(fuel - 1, w, m, steps, if i < j then i else j, if i < j then j else i,
                          if i < j then a[1..] else b[1..], if i < j then b[1..] else a[1..], k);
      }
    }
  }

  /**
   * A lookup that begins with nothing visited reports a provable miss exactly when no declaration is
   * reached along two reference paths with the same number of steps left.
   */
  lemma MissIsReportedIffReachedOnce(h: nat, fuel: nat, w: World, t: Target, steps: seq<Step>)
    requires Lacks(h, w, t, steps) && h <= fuel
    ensures IsMissing(fuel, w, t, steps, {}) <==> ReachedOnce(w, t, steps)
  {
    ProvableMissIsReportedIffOnce(h, fuel, w, t, steps, {});
    if ReachedOnce(w, t, steps) {
      ReachedOnceIsConsultedOnce(fuel, w, t, steps);
    }
    if Once(Consulted(fuel, w, t, steps).value, {}) {
      forall a, b | a != b && Reached(w, t, steps, a).Some? ensures Reached(w, t, steps, a) != Reached(w, t, steps, b) {
        if Reached(w, t, steps, a) == Reached(w, t, steps, b) {
          ConsultedOnceIsReachedOnce(fuel, w, t, steps, a, b, Reached(w, t, steps, a).value);
        }
      }
    }
  }

  // ---------------------------------------------------------------- the diamond

  /** `interface D extends B, C`, both of which extend an empty `A`. */
  function Diamond(): World {
    World(map[0 := Site(0, Interface([], [Some(Name("B")), Some(Name("C"))])),
              1 := Site(0, Interface([], [Some(Name("A"))])),
              2 := Site(0, Interface([], [Some(Name("A"))])),
              3 := Site(0, Interface([], []))],
          map[(0, Name("A")) := 3, (0, Name("B")) := 1, (0, Name("C")) := 2])
  }

  lemma DiamondBases()
    ensures var w := Diamond();
      && BaseTarget(w, 0, Some(Name("A"))) == Some(AtDecl(3))
      && BaseTarget(w, 0, Some(Name("B"))) == Some(AtDecl(1))
      && BaseTarget(w, 0, Some(Name("C"))) == Some(AtDecl(2))
  {
  }

  lemma DiamondMoves(name: Name)
    ensures var w, steps := Diamond(), [Field(name)];
      && MoveFrom(w, AtDecl(3), steps) == Answer(Missing)
      && MoveFrom(w, AtDecl(1), steps) == AnyOf([Some(AtDecl(3))])
      && MoveFrom(w, AtDecl(2), steps) == AnyOf([Some(AtDecl(3))])
      && MoveFrom(w, AtDecl(0), steps) == AnyOf([Some(AtDecl(1)), Some(AtDecl(2))])
  {
    DiamondBases();
    var w := Diamond();
    assert Bases(w, 0, [Some(Name("A"))]) == [Some(AtDecl(3))];
    assert Bases(w, 0, [Some(Name("B")), Some(Name("C"))]) == [Some(AtDecl(1)), Some(AtDecl(2))];
  }

  lemma DiamondLacks(name: Name)
    ensures Lacks(3, Diamond(), AtDecl(0), [Field(name)])
  {
    var w, steps := Diamond(), [Field(name)];
    DiamondMoves(name);
    LacksInDecl(0, w, 3, steps);
    LacksInDecl(1, w, 1, steps);
    LacksInDecl(1, w, 2, steps);
    LacksInDecl(2, w, 0, steps);
  }

  lemma ConsultedOne(fuel: nat, w: World, t: Target, steps: seq<Step>)
    requires Consulted(fuel, w, t, steps).Some?
    ensures ConsultedAll(fuel, w, [Some(t)], steps) == Consulted(fuel, w, t, steps)
  {
    assert [Some(t)][..0] == [] && [] + Consulted(fuel, w, t, steps).value == Consulted(fuel, w, t, steps).value;
  }

  lemma ConsultedTwo(fuel: nat, w: World, t: Target, u: Target, steps: seq<Step>)
    requires Consulted(fuel, w, t, steps).Some? && Consulted(fuel, w, u, steps).Some?
    ensures ConsultedAll(fuel, w, [Some(t), Some(u)], steps)
         == Some(Consulted(fuel, w, t, steps).value + Consulted(fuel, w, u, steps).value)
  {
    ConsultedOne(fuel, w, t, steps);
    assert [Some(t), Some(u)][..1] == [Some(t)];
  }

  lemma DiamondEntries(name: Name)
    ensures forall id: nat :: id < 4 ==> Entry(Diamond(), AtDecl(id), [Field(name)]) == [(id, 1)]
  {
  }

  lemma Opened(fuel: nat, w: World, t: Target, steps: seq<Step>)
    requires fuel > 0 && steps != []
    ensures Consulted(fuel, w, t, steps)
         == Joined(Some(Entry(w, t, steps)), ConsultedBeyond(fuel - 1, w, MoveFrom(w, t, steps), steps))
  {
  }

  /** `A` is entered once through `B` and once through `C`. */
  lemma DiamondEntersTwice(name: Name, fuel: nat)
    requires fuel >= 3
    ensures Consulted(fuel, Diamond(), AtDecl(0), [Field(name)]).Some?
    ensures !Once(Consulted(fuel, Diamond(), AtDecl(0), [Field(name)]).value, {})
  {
    var w, steps := Diamond(), [Field(name)];
    DiamondMoves(name);
    DiamondEntries(name);
    Opened(fuel - 2, w, AtDecl(3), steps);
    ConsultedOne(fuel - 2, w, AtDecl(3), steps);
    Opened(fuel - 1, w, AtDecl(1), steps);
    Opened(fuel - 1, w, AtDecl(2), steps);
    ConsultedTwo(fuel - 1, w, AtDecl(1), AtDecl(2), steps);
    Opened(fuel, w, AtDecl(0), steps);
    var keys := Consulted(fuel, w, AtDecl(0), steps).value;
    assert keys[2] == (3, 1) && keys[4] == (3, 1);
  }

  /** A member absent from a diamond of interfaces is provably absent and yet answered `Unknown`. */
  lemma DiamondHidesMiss(name: Name, fuel: nat)
    requires fuel >= 3
    ensures Lacks(3, Diamond(), AtDecl(0), [Field(name)])
    ensures Walk(fuel, Diamond(), AtDecl(0), [Field(name)], {}).Done?
    ensures Walk(fuel, Diamond(), AtDecl(0), [Field(name)], {}).value == Unknown
  {
    DiamondLacks(name);
    DiamondEntersTwice(name, fuel);
    ProvableMissIsReportedIffOnce(3, fuel, Diamond(), AtDecl(0), [Field(name)], {});
  }
}
