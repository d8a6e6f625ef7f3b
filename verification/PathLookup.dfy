/** The type-path walk as it runs: recursion that mutates one visited set. */
module PathLookup {
  import opened Wrappers
  import opened CatalogNames
  import opened TypePaths

  /** Once a branch runs out of stack, so does the whole list. */
  lemma {:induction false} OverflowStays(fuel: nat, w: World, targets: seq<Option<Target>>, n: nat, steps: seq<Step>,
          seen: set<Key>)
    requires n <= |targets|
    requires WalkAll(fuel, w, targets[..n], steps, seen).Overflow?
    ensures WalkAll(fuel, w, targets, steps, seen).Overflow?
    decreases |targets| - n
  {
    if n == |targets| {
      assert targets[..n] == targets;
    } else {
      assert targets[..n + 1][..n] == targets[..n];
      OverflowStays(fuel, w, targets, n + 1, steps, seen);
    }
  }

  /** One lookup over a world of declarations; `None` is the call stack running out. */
  class PathWalk {
    const world: World
    var seen: set<Key>

    constructor (world: World)
      ensures this.world == world && seen == {}
    {
      this.world := world;
      seen := {};
    }

    ghost predicate Agrees(r: Option<Lookup>, walked: Walked<Lookup>)
      reads this
    {
      if r.None? then walked.Overflow? else walked == Done(r.value, seen)
    }

    method LookupPath(fuel: nat, t: Target, steps: seq<Step>) returns (r: Option<Lookup>)
      modifies this
      ensures Agrees(r, Walk(fuel, world, t, steps, old(seen)))
      ensures r == Some(Found) ==> Has(fuel, world, t, steps)
      ensures r == Some(Missing) ==> Lacks(fuel, world, t, steps)
      decreases fuel, 0
    {
      WalkIsSound(fuel, world, t, steps, seen);
      if fuel == 0 {
        return None;
      }
      if steps == [] {
        return Some(Found);
      }
      if Met(world, t, steps, seen) {
        return Some(Unknown);
      }
      if Guarded(world, t) {
        seen := seen + {(t.id, |steps|)};
      }
      r := Proceed(fuel - 1, MoveFrom(world, t, steps), steps);
    }

    /** Answers, moves on, or consults the branches of the node at hand. */
    method Proceed(fuel: nat, m: Move, steps: seq<Step>) returns (r: Option<Lookup>)
      modifies this
      ensures Agrees(r, Follow(fuel, world, m, steps, old(seen)))
      decreases fuel, 2
    {
      match m {
        case Answer(verdict) =>
          r := Some(verdict);
        case Go(target, rest) =>
          r := LookupPath(fuel, target, rest);
        case AnyOf(targets) =>
          var verdicts := LookupAll(fuel, targets, steps);
          r := if verdicts.None? then None else Some(Combine(verdicts.value));
        case EachOf(targets) =>
          var verdicts := LookupAll(fuel, targets, steps);
          r := if verdicts.None? then None else Some(Agree(verdicts.value));
      }
    }

    /** The branches of an intersection, a union or a heritage list, left to right. */
    method LookupAll(fuel: nat, targets: seq<Option<Target>>, steps: seq<Step>) returns (r: Option<seq<Lookup>>)
      modifies this
      ensures var walked := WalkAll(fuel, world, targets, steps, old(seen));
        if r.None? then walked.Overflow? else walked == Done(r.value, seen)
      decreases fuel, 1
    {
      var verdicts: seq<Lookup> := [];
      ghost var seen0 := seen;
      for n := 0 to |targets|
        invariant WalkAll(fuel, world, targets[..n], steps, seen0) == Done(verdicts, seen)
      {
        assert targets[..n + 1][..n] == targets[..n];
        var verdict := Some(Unknown);
        if targets[n].Some? {
          verdict := LookupPath(fuel, targets[n].value, steps);
          if verdict.None? {
            OverflowStays(fuel, world, targets, n + 1, steps, seen0);
            return None;
          }
        }
        verdicts := verdicts + [verdict.value];
      }
      assert targets[..|targets|] == targets;
      r := Some(verdicts);
    }
  }
}
