/**
 * When an existing path is found. A declaration visited once is not entered again, whatever is looked
 * for behind it: a union can then miss what its branches share, and an index what led to it.
 */
module TypePathPresence {
  import opened Wrappers
  import opened CatalogNames
  import opened TypePaths
  import opened TypePathPrecision
  import opened TypePathTermination

  /** Where a lookup starts. */
  datatype Start = Start(w: World, target: Target, steps: seq<Step>)

  /** A reference path from the start leads to the target, with those steps left. */
  ghost predicate From(s: Start, t: Target, steps: seq<Step>) {
    exists c :: Position(s.w, s.target, s.steps, c) == Some((t, steps))
  }

  /** No union is reached. */
  ghost predicate NoUnion(s: Start) {
    forall t, steps :: From(s, t, steps) && steps != [] ==> !MoveFrom(s.w, t, steps).EachOf?
  }

  /** A declaration reached with as many steps left is reached with the same steps left. */
  ghost predicate StepsAgree(s: Start) {
    forall t, a, b :: From(s, t, a) && From(s, t, b) && Guarded(s.w, t) && |a| == |b| ==> a == b
  }

  lemma {:induction false} PositionExtends(w: World, t: Target, steps: seq<Step>, c: seq<nat>, u: Target,
          rest: seq<Step>, i: nat)
    requires Position(w, t, steps, c) == Some((u, rest)) && rest != []
    requires var m := MoveFrom(w, u, rest); i < |Successors(m)| && Successors(m)[i].Some?
    ensures var m := MoveFrom(w, u, rest);
      Position(w, t, steps, c + [i]) == Some((Successors(m)[i].value, StepsAfter(m, rest)))
    decreases |c|
  {
    if c == [] {
      PositionThrough(w, t, steps, i, []);
      assert c + [i] == [i] + [];
    } else {
      var m := MoveFrom(w, t, steps);
      assert PositionBeyond(w, m, steps, c).Some?;
      PositionExtends(w, Successors(m)[c[0]].value, StepsAfter(m, steps), c[1..], u, rest, i);
      PositionThrough(w, t, steps, c[0], c[1..] + [i]);
      assert c + [i] == [c[0]] + (c[1..] + [i]);
    }
  }

  lemma FromThrough(s: Start, t: Target, steps: seq<Step>, i: nat)
    requires From(s, t, steps) && steps != []
    requires var m := MoveFrom(s.w, t, steps); i < |Successors(m)| && Successors(m)[i].Some?
    ensures var m := MoveFrom(s.w, t, steps); From(s, Successors(m)[i].value, StepsAfter(m, steps))
  {
    var c :| Position(s.w, s.target, s.steps, c) == Some((t, steps));
    PositionExtends(s.w, s.target, s.steps, c, t, steps, i);
  }

  // ---------------------------------------------------------------- ways to declared members

  /** The choices lead to declared members, past no declaration of `seen`. */
  ghost predicate Open(w: World, t: Target, steps: seq<Step>, c: seq<nat>, seen: set<Key>)
    decreases |c|
  {
    if steps == [] then c == []
    else
      var m := MoveFrom(w, t, steps);
      !Met(w, t, steps, seen) && if c == [] then m == Answer(Found) else OpenBeyond(w, m, steps, c, seen)
  }

  ghost predicate OpenBeyond(w: World, m: Move, steps: seq<Step>, c: seq<nat>, seen: set<Key>)
    requires c != []
    decreases |c|, 0
  {
    && c[0] < |Successors(m)| && Successors(m)[c[0]].Some?
    && Open(w, Successors(m)[c[0]].value, StepsAfter(m, steps), c[1..], seen)
  }

  ghost predicate CanFind(w: World, t: Target, steps: seq<Step>, seen: set<Key>) {
    exists c :: Open(w, t, steps, c, seen)
  }

  /** Nothing is found from the declarations entered in between. */
  ghost predicate Dead(s: Start, before: set<Key>, after: set<Key>) {
    forall t, steps :: From(s, t, steps) && steps != [] && Met(s.w, t, steps, after) && !Met(s.w, t, steps, before) ==>
      !CanFind(s.w, t, steps, before)
  }

  /** So no way leads past them. */
  lemma {:induction false} OpenStays(s: Start, t: Target, steps: seq<Step>, c: seq<nat>, before: set<Key>,
          after: set<Key>)
    requires From(s, t, steps) && Dead(s, before, after) && Open(s.w, t, steps, c, before)
    ensures Open(s.w, t, steps, c, after)
    decreases |c|
  {
    if steps == [] {
    } else {
      assert CanFind(s.w, t, steps, before);
      if c != [] {
        var m := MoveFrom(s.w, t, steps);
        FromThrough(s, t, steps, c[0]);
        OpenStays(s, Successors(m)[c[0]].value, StepsAfter(m, steps), c[1..], before, after);
      }
    }
  }

  lemma NotEarlierEither(s: Start, t: Target, steps: seq<Step>, before: set<Key>, after: set<Key>)
    requires From(s, t, steps) && Dead(s, before, after) && !CanFind(s.w, t, steps, after)
    ensures !CanFind(s.w, t, steps, before)
  {
    if c :| Open(s.w, t, steps, c, before) {
      OpenStays(s, t, steps, c, before, after);
    }
  }

  lemma DeadComposes(s: Start, a: set<Key>, b: set<Key>, c: set<Key>)
    requires Dead(s, a, b) && Dead(s, b, c)
    ensures Dead(s, a, c)
  {
    forall t, steps | From(s, t, steps) && steps != [] && Met(s.w, t, steps, c) && !Met(s.w, t, steps, a)
      ensures !CanFind(s.w, t, steps, a)
    {
      if !Met(s.w, t, steps, b) {
        NotEarlierEither(s, t, steps, a, b);
      }
    }
  }

  ghost predicate CanFindWithin(w: World, t: Target, steps: seq<Step>, n: nat, seen: set<Key>) {
    exists c :: |c| <= n && Open(w, t, steps, c, seen)
  }

  /** A way does not pass a given declaration, or it leads on from there. */
  lemma {:induction false} PastOrFrom(s: Start, u: Target, rest: seq<Step>, c: seq<nat>, seen: set<Key>, t: Target,
          steps: seq<Step>)
    requires StepsAgree(s) && From(s, u, rest) && From(s, t, steps) && Guarded(s.w, t)
    requires Open(s.w, u, rest, c, seen)
    ensures Open(s.w, u, rest, c, Mark(s.w, t, steps, seen)) || CanFindWithin(s.w, t, steps, |c|, seen)
    decreases |c|
  {
    if rest == [] {
    } else if Met(s.w, u, rest, Mark(s.w, t, steps, seen)) {
      assert u == t && rest == steps;
    } else if c != [] {
      var m := MoveFrom(s.w, u, rest);
      FromThrough(s, u, rest, c[0]);
      PastOrFrom(s, Successors(m)[c[0]].value, StepsAfter(m, rest), c[1..], seen, t, steps);
    }
  }

  /** The way leads on from the first move without coming back. */
  ghost predicate OpenMarked(w: World, t: Target, steps: seq<Step>, c: seq<nat>, seen: set<Key>)
    requires steps != []
  {
    var m := MoveFrom(w, t, steps);
    if c == [] then m == Answer(Found) else OpenBeyond(w, m, steps, c, Mark(w, t, steps, seen))
  }

  lemma {:induction false} SomeWayDoesNotReturn(s: Start, t: Target, steps: seq<Step>, c: seq<nat>, seen: set<Key>)
    requires StepsAgree(s) && From(s, t, steps) && steps != [] && Open(s.w, t, steps, c, seen)
    ensures exists d :: OpenMarked(s.w, t, steps, d, seen)
    decreases |c|
  {
    if c == [] || !Guarded(s.w, t) {
      assert OpenMarked(s.w, t, steps, c, seen);
    } else {
      var m := MoveFrom(s.w, t, steps);
      FromThrough(s, t, steps, c[0]);
      PastOrFrom(s, Successors(m)[c[0]].value, StepsAfter(m, steps), c[1..], seen, t, steps);
      if OpenBeyond(s.w, m, steps, c, Mark(s.w, t, steps, seen)) {
        assert OpenMarked(s.w, t, steps, c, seen);
      } else {
        var d :| |d| <= |c| - 1 && Open(s.w, t, steps, d, seen);
        SomeWayDoesNotReturn(s, t, steps, d, seen);
      }
    }
  }

  /** From none of the targets anything is found. */
  ghost predicate NoneCanFind(w: World, targets: seq<Option<Target>>, steps: seq<Step>, seen: set<Key>) {
    forall i :: 0 <= i < |targets| && targets[i].Some? ==> !CanFind(w, targets[i].value, steps, seen)
  }

  lemma NotOpenMarked(w: World, t: Target, steps: seq<Step>, d: seq<nat>, seen: set<Key>)
    requires steps != []
    requires var m := MoveFrom(w, t, steps);
      m != Answer(Found) && NoneCanFind(w, Successors(m), StepsAfter(m, steps), Mark(w, t, steps, seen))
    ensures !OpenMarked(w, t, steps, d, seen)
  {
    var m, marked := MoveFrom(w, t, steps), Mark(w, t, steps, seen);
    if d != [] && d[0] < |Successors(m)| && Successors(m)[d[0]].Some? {
      assert !CanFind(w, Successors(m)[d[0]].value, StepsAfter(m, steps), marked);
      assert !Open(w, Successors(m)[d[0]].value, StepsAfter(m, steps), d[1..], marked);
    }
  }

  lemma NothingBeyondNothingHere(s: Start, t: Target, steps: seq<Step>, seen: set<Key>)
    requires StepsAgree(s) && From(s, t, steps) && steps != []
    requires var m := MoveFrom(s.w, t, steps);
      m != Answer(Found) && NoneCanFind(s.w, Successors(m), StepsAfter(m, steps), Mark(s.w, t, steps, seen))
    ensures !CanFind(s.w, t, steps, seen)
  {
    if c :| Open(s.w, t, steps, c, seen) {
      SomeWayDoesNotReturn(s, t, steps, c, seen);
      var d :| OpenMarked(s.w, t, steps, d, seen);
      NotOpenMarked(s.w, t, steps, d, seen);
    }
  }

  lemma NotPastEither(s: Start, u: Target, rest: seq<Step>, seen: set<Key>, t: Target, steps: seq<Step>)
    requires StepsAgree(s) && From(s, u, rest) && From(s, t, steps) && Guarded(s.w, t)
    requires !CanFind(s.w, u, rest, Mark(s.w, t, steps, seen)) && !CanFind(s.w, t, steps, seen)
    ensures !CanFind(s.w, u, rest, seen)
  {
    if c :| Open(s.w, u, rest, c, seen) {
      PastOrFrom(s, u, rest, c, seen, t, steps);
    }
  }

  lemma DeadBehindMark(s: Start, t: Target, steps: seq<Step>, seen: set<Key>, after: set<Key>)
    requires StepsAgree(s) && From(s, t, steps) && !CanFind(s.w, t, steps, seen)
    requires Dead(s, Mark(s.w, t, steps, seen), after)
    ensures Dead(s, seen, after)
  {
    var marked := Mark(s.w, t, steps, seen);
    if Guarded(s.w, t) {
      forall u, rest | From(s, u, rest) && rest != [] && Met(s.w, u, rest, after) && !Met(s.w, u, rest, seen)
        ensures !CanFind(s.w, u, rest, seen)
      {
        if Met(s.w, u, rest, marked) {
          assert u == t && rest == steps;
        } else {
          NotPastEither(s, u, rest, seen, t, steps);
        }
      }
    }
  }

  // ---------------------------------------------------------------- what is not found is not there

  ghost predicate AllFrom(s: Start, targets: seq<Option<Target>>, steps: seq<Step>) {
    forall i :: 0 <= i < |targets| && targets[i].Some? ==> From(s, targets[i].value, steps)
  }

  lemma FrontIsFrom(s: Start, targets: seq<Option<Target>>, steps: seq<Step>)
    requires targets != [] && AllFrom(s, targets, steps)
    ensures AllFrom(s, targets[..|targets| - 1], steps)
    ensures var last := targets[|targets| - 1]; last.Some? ==> From(s, last.value, steps)
  {
  }

  predicate NoneFound(r: Walked<seq<Lookup>>) {
    r.Done? && Found !in r.value
  }

  lemma LastIsNotFound(fuel: nat, w: World, targets: seq<Option<Target>>, steps: seq<Step>, seen: set<Key>)
    requires targets != [] && NoneFound(WalkAll(fuel, w, targets, steps, seen))
    ensures var last, before := targets[|targets| - 1], WalkAll(fuel, w, targets[..|targets| - 1], steps, seen);
      && NoneFound(before)
      && (last.None? ==> WalkAll(fuel, w, targets, steps, seen).seen == before.seen)
      && (last.Some? ==>
        var r := Walk(fuel, w, last.value, steps, before.seen);
        r.Done? && r.value != Found && WalkAll(fuel, w, targets, steps, seen).seen == r.seen)
  {
  }

  lemma NoneOfAll(w: World, targets: seq<Option<Target>>, steps: seq<Step>, seen: set<Key>)
    requires targets != [] && NoneCanFind(w, targets[..|targets| - 1], steps, seen)
    requires var last := targets[|targets| - 1]; last.Some? ==> !CanFind(w, last.value, steps, seen)
    ensures NoneCanFind(w, targets, steps, seen)
  {
    forall i | 0 <= i < |targets| && targets[i].Some? ensures !CanFind(w, targets[i].value, steps, seen) {
      if i < |targets| - 1 {
        assert targets[..|targets| - 1][i] == targets[i];
      }
    }
  }

  /** What a walk enters without finding anything leads to nothing. */
  lemma {:induction false} NotFoundIsDead(fuel: nat, s: Start, t: Target, steps: seq<Step>, seen: set<Key>)
    requires NoUnion(s) && StepsAgree(s) && From(s, t, steps)
    requires Walk(fuel, s.w, t, steps, seen).Done? && Walk(fuel, s.w, t, steps, seen).value != Found
    ensures !CanFind(s.w, t, steps, seen)
    ensures Dead(s, seen, Walk(fuel, s.w, t, steps, seen).seen)
    decreases fuel, 0
  {
    if Met(s.w, t, steps, seen) {
    } else {
      var marked := Mark(s.w, t, steps, seen);
      var after := Follow(fuel - 1, s.w, MoveFrom(s.w, t, steps), steps, marked).seen;
      FollowedIsDead(fuel - 1, s, t, steps, marked);
      NothingBeyondNothingHere(s, t, steps, seen);
      DeadBehindMark(s, t, steps, seen, after);
    }
  }

  lemma {:induction false} FollowedIsDead(fuel: nat, s: Start, t: Target, steps: seq<Step>, seen: set<Key>)
    requires NoUnion(s) && StepsAgree(s) && From(s, t, steps) && steps != []
    requires var r := Follow(fuel, s.w, MoveFrom(s.w, t, steps), steps, seen); r.Done? && r.value != Found
    ensures var m := MoveFrom(s.w, t, steps);
      && m != Answer(Found) && NoneCanFind(s.w, Successors(m), StepsAfter(m, steps), seen)
      && Dead(s, seen, Follow(fuel, s.w, m, steps, seen).seen)
    decreases fuel, |Successors(MoveFrom(s.w, t, steps))| + 2
  {
    match MoveFrom(s.w, t, steps)
    case Answer(_) =>
    case Go(target, rest) =>
      FromThrough(s, t, steps, 0);
      NotFoundIsDead(fuel, s, target, rest, seen);
    case AnyOf(targets) =>
      forall i: nat | i < |targets| && targets[i].Some? ensures From(s, targets[i].value, steps) {
        FromThrough(s, t, steps, i);
      }
      assert AllFrom(s, targets, steps);
      AllNotFoundAreDead(fuel, s, targets, steps, seen);
    case EachOf(_) => assert false;
  }

  lemma {:induction false} AllNotFoundAreDead(fuel: nat, s: Start, targets: seq<Option<Target>>, steps: seq<Step>,
          seen: set<Key>)
    requires NoUnion(s) && StepsAgree(s) && AllFrom(s, targets, steps)
    requires NoneFound(WalkAll(fuel, s.w, targets, steps, seen))
    ensures NoneCanFind(s.w, targets, steps, seen)
    ensures Dead(s, seen, WalkAll(fuel, s.w, targets, steps, seen).seen)
    decreases fuel, |targets| + 1
  {
    if targets == [] {
    } else {
      var front, last := targets[..|targets| - 1], targets[|targets| - 1];
      LastIsNotFound(fuel, s.w, targets, steps, seen);
      FrontIsFrom(s, targets, steps);
      AllNotFoundAreDead(fuel, s, front, steps, seen);
      if last.Some? {
        var before := WalkAll(fuel, s.w, front, steps, seen).seen;
        NotFoundIsDead(fuel, s, last.value, steps, before);
        DeadComposes(s, seen, before, Walk(fuel, s.w, last.value, steps, before).seen);
        NotEarlierEither(s, last.value, steps, seen, before);
      }
      NoneOfAll(s.w, targets, steps, seen);
    }
  }

  /** A derivation is a way, where no union has to be derived. */
  lemma {:induction false} PresentCanBeFound(h: nat, s: Start, t: Target, steps: seq<Step>)
    requires NoUnion(s) && From(s, t, steps) && Has(h, s.w, t, steps)
    ensures CanFind(s.w, t, steps, {})
    decreases h
  {
    if steps == [] {
      assert Open(s.w, t, steps, [], {});
    } else {
      DerivationsMove(h - 1, s.w, t, steps);
      var m := MoveFrom(s.w, t, steps);
      if m.Answer? {
        assert Open(s.w, t, steps, [], {});
      } else {
        var i: nat :| i < |Successors(m)| && Successors(m)[i].Some? &&
          Has(h - 1, s.w, Successors(m)[i].value, StepsAfter(m, steps));
        FromThrough(s, t, steps, i);
        PresentCanBeFound(h - 1, s, Successors(m)[i].value, StepsAfter(m, steps));
        var c :| Open(s.w, Successors(m)[i].value, StepsAfter(m, steps), c, {});
        assert ([i] + c)[1..] == c;
        assert OpenBeyond(s.w, m, steps, [i] + c, {});
        assert Open(s.w, t, steps, [i] + c, {});
      }
    }
  }

  ghost predicate ProvablyPresent(w: World, t: Target, steps: seq<Step>) {
    exists h: nat :: Has(h, w, t, steps)
  }

  /**
   * Where no union is reached, and every declaration with the same steps left whenever with as many,
   * a lookup finds exactly the paths that exist, however often declarations are reached.
   */
  lemma FoundIffPresent(fuel: nat, w: World, t: Target, steps: seq<Step>)
    requires NoUnion(Start(w, t, steps)) && StepsAgree(Start(w, t, steps))
    requires Walk(fuel, w, t, steps, {}).Done?
    ensures Walk(fuel, w, t, steps, {}).value == Found <==> ProvablyPresent(w, t, steps)
  {
    var s := Start(w, t, steps);
    assert Position(w, t, steps, []) == Some((t, steps));
    WalkIsSound(fuel, w, t, steps, {});
    if Walk(fuel, w, t, steps, {}).value != Found {
      NotFoundIsDead(fuel, s, t, steps, {});
      if h: nat :| Has(h, w, t, steps) {
        PresentCanBeFound(h, s, t, steps);
      }
    }
  }

  // ---------------------------------------------------------------- neither hypothesis can be dropped

  ghost predicate ClosedAt(w: World, place: (Target, seq<Step>) -> bool, t: Target, steps: seq<Step>)
    requires steps != []
  {
    var m := MoveFrom(w, t, steps);
    forall i :: 0 <= i < |Successors(m)| && Successors(m)[i].Some? ==>
      place(Successors(m)[i].value, StepsAfter(m, steps))
  }

  /** Every move leads from places to places. */
  ghost predicate Closed(w: World, place: (Target, seq<Step>) -> bool) {
    forall t, steps :: place(t, steps) && steps != [] ==> ClosedAt(w, place, t, steps)
  }

  lemma {:induction false} PositionIsPlace(w: World, place: (Target, seq<Step>) -> bool, t: Target, steps: seq<Step>,
          c: seq<nat>)
    requires Closed(w, place) && place(t, steps) && Position(w, t, steps, c).Some?
    ensures var p := Position(w, t, steps, c).value; place(p.0, p.1)
    decreases |c|
  {
    if c == [] {
    } else {
      var m := MoveFrom(w, t, steps);
      assert ClosedAt(w, place, t, steps) && PositionBeyond(w, m, steps, c).Some?;
      PositionIsPlace(w, place, Successors(m)[c[0]].value, StepsAfter(m, steps), c[1..]);
    }
  }

  lemma ReachedArePlaces(s: Start, place: (Target, seq<Step>) -> bool)
    requires Closed(s.w, place) && place(s.target, s.steps)
    ensures forall t, steps :: From(s, t, steps) ==> place(t, steps)
  {
    forall t, steps | From(s, t, steps) ensures place(t, steps) {
      var c :| Position(s.w, s.target, s.steps, c) == Some((t, steps));
      PositionIsPlace(s.w, place, s.target, s.steps, c);
    }
  }

  lemma WalkGoes(fuel: nat, w: World, t: Target, steps: seq<Step>, seen: set<Key>, u: Target, rest: seq<Step>)
    requires steps != [] && !Met(w, t, steps, seen) && MoveFrom(w, t, steps) == Go(u, rest)
    ensures Walk(fuel + 1, w, t, steps, seen) == Walk(fuel, w, u, rest, Mark(w, t, steps, seen))
  {
  }

  lemma WalkAnswers(fuel: nat, w: World, t: Target, steps: seq<Step>, seen: set<Key>)
    requires steps != [] && !Met(w, t, steps, seen) && MoveFrom(w, t, steps).Answer?
    ensures Walk(fuel + 1, w, t, steps, seen) == Done(MoveFrom(w, t, steps).verdict, Mark(w, t, steps, seen))
  {
  }

  lemma ConsultsLast(fuel: nat, w: World, front: seq<Option<Target>>, u: Target, steps: seq<Step>, seen: set<Key>)
    requires WalkAll(fuel, w, front, steps, seen).Done?
    ensures var before, all := WalkAll(fuel, w, front, steps, seen), front + [Some(u)];
      var r := Walk(fuel, w, u, steps, before.seen);
      WalkAll(fuel, w, all, steps, seen) == if r.Done? then Done(before.value + [r.value], r.seen) else Overflow
  {
    assert (front + [Some(u)])[..|front|] == front;
  }

  lemma ConsultsOne(fuel: nat, w: World, u: Target, steps: seq<Step>, seen: set<Key>)
    ensures var r := Walk(fuel, w, u, steps, seen);
      WalkAll(fuel, w, [Some(u)], steps, seen) == if r.Done? then Done([r.value], r.seen) else Overflow
  {
    var none: seq<Option<Target>> := [];
    assert WalkAll(fuel, w, none, steps, seen) == Done([], seen);
    ConsultsLast(fuel, w, none, u, steps, seen);
    assert none + [Some(u)] == [Some(u)];
    var r := Walk(fuel, w, u, steps, seen);
    assert r.Done? ==> [] + [r.value] == [r.value];
  }

  lemma VerdictOfOne(v: Lookup)
    ensures Combine([v]) == v
  {
    assert v in [v];
  }

  lemma WalkConsultsOne(fuel: nat, w: World, t: Target, steps: seq<Step>, seen: set<Key>, u: Target)
    requires steps != [] && !Met(w, t, steps, seen) && MoveFrom(w, t, steps) == AnyOf([Some(u)])
    ensures Walk(fuel + 1, w, t, steps, seen) == Walk(fuel, w, u, steps, Mark(w, t, steps, seen))
  {
    var marked := Mark(w, t, steps, seen);
    ConsultsOne(fuel, w, u, steps, marked);
    assert Walk(fuel + 1, w, t, steps, seen) == Follow(fuel, w, AnyOf([Some(u)]), steps, marked);
    if Walk(fuel, w, u, steps, marked).Done? {
      VerdictOfOne(Walk(fuel, w, u, steps, marked).value);
    }
  }

  lemma WalkDisagrees(fuel: nat, w: World, t: Target, steps: seq<Step>, seen: set<Key>, u: Target, v: Target,
          between: set<Key>, after: set<Key>)
    requires steps != [] && !Guarded(w, t) && MoveFrom(w, t, steps) == EachOf([Some(u), Some(v)])
    requires Walk(fuel, w, u, steps, seen) == Done(Found, between)
    requires Walk(fuel, w, v, steps, between) == Done(Unknown, after)
    ensures Walk(fuel + 1, w, t, steps, seen) == Done(Unknown, after)
  {
    ConsultsOne(fuel, w, u, steps, seen);
    ConsultsLast(fuel, w, [Some(u)], v, steps, seen);
    assert [Some(u)] + [Some(v)] == [Some(u), Some(v)] && [Found] + [Unknown] == [Found, Unknown];
    assert WalkAll(fuel, w, [Some(u), Some(v)], steps, seen) == Done([Found, Unknown], after);
    assert Walk(fuel + 1, w, t, steps, seen) == Follow(fuel, w, EachOf([Some(u), Some(v)]), steps, seen);
    assert Unknown in [Found, Unknown] && Found in [Found, Unknown];
  }

  lemma HasGoes(h: nat, w: World, t: Target, steps: seq<Step>, u: Target, rest: seq<Step>)
    requires steps != [] && MoveFrom(w, t, steps) == Go(u, rest) && Has(h, w, u, rest)
    ensures Has(h + 1, w, t, steps)
  {
    DerivationsMove(h, w, t, steps);
  }

  lemma HasBoth(h: nat, w: World, t: Target, steps: seq<Step>, u: Target, v: Target)
    requires steps != [] && MoveFrom(w, t, steps) == EachOf([Some(u), Some(v)])
    requires Has(h, w, u, steps) && Has(h, w, v, steps)
    ensures Has(h + 1, w, t, steps)
  {
    DerivationsMove(h, w, t, steps);
  }

  function Named(name: string): Type {
    Reference(Name(name), false, [])
  }

  /** `type U = A | B`, where `A` and `B` extend an interface `C` that declares the member. */
  function SharedBase(member: Name): World {
    World(map[0 := Site(0, Alias(Union([Named("A"), Named("B")]))),
              1 := Site(0, Interface([], [Some(Name("C"))])),
              2 := Site(0, Interface([], [Some(Name("C"))])),
              3 := Site(0, Interface([Property(member, None)], []))],
          map[(0, Name("A")) := 1, (0, Name("B")) := 2, (0, Name("C")) := 3])
  }

  lemma SharedBaseMoves(member: Name)
    ensures var w, steps := SharedBase(member), [Field(member)];
      && MoveFrom(w, AtDecl(0), steps) == Go(AtType(0, Union([Named("A"), Named("B")])), steps)
      && MoveFrom(w, AtType(0, Union([Named("A"), Named("B")])), steps)
         == EachOf([Some(AtType(0, Named("A"))), Some(AtType(0, Named("B")))])
      && MoveFrom(w, AtType(0, Named("A")), steps) == Go(AtDecl(1), steps)
      && MoveFrom(w, AtType(0, Named("B")), steps) == Go(AtDecl(2), steps)
  {
    var w := SharedBase(member);
    assert Resolve(w, 0, Name("A")) == Some(1) && Resolve(w, 0, Name("B")) == Some(2);
    assert Parts(0, [Named("A"), Named("B")]) == [Some(AtType(0, Named("A"))), Some(AtType(0, Named("B")))];
  }

  lemma SharedBaseDeclMoves(member: Name)
    ensures var w, steps := SharedBase(member), [Field(member)];
      && MoveFrom(w, AtDecl(1), steps) == AnyOf([Some(AtDecl(3))])
      && MoveFrom(w, AtDecl(2), steps) == AnyOf([Some(AtDecl(3))])
      && MoveFrom(w, AtDecl(3), steps) == Answer(Found)
  {
    var w := SharedBase(member);
    assert BaseTarget(w, 0, Some(Name("C"))) == Some(AtDecl(3));
    assert Bases(w, 0, [Some(Name("C"))]) == [Some(AtDecl(3))];
    assert FirstProperty([Property(member, None)], member) == Some(None);
  }

  predicate OfSharedBase(t: Target) {
    t in {AtDecl(0), AtDecl(1), AtDecl(2), AtDecl(3)} ||
    (t.AtType? && t.file == 0 && t.ty in {Union([Named("A"), Named("B")]), Named("A"), Named("B")})
  }

  /** Nowhere does the path change. */
  lemma SharedBaseStays(member: Name, t: Target)
    requires OfSharedBase(t)
    ensures var m := MoveFrom(SharedBase(member), t, [Field(member)]);
      && StepsAfter(m, [Field(member)]) == [Field(member)]
      && forall u :: Some(u) in Successors(m) ==> OfSharedBase(u)
  {
    SharedBaseMoves(member);
    SharedBaseDeclMoves(member);
  }

  lemma SharedBaseStepsAgree(member: Name)
    ensures StepsAgree(Start(SharedBase(member), AtDecl(0), [Field(member)]))
  {
    var w, whole := SharedBase(member), [Field(member)];
    var place := (t: Target, steps: seq<Step>) => OfSharedBase(t) && steps == whole;
    forall t, steps | place(t, steps) && steps != [] ensures ClosedAt(w, place, t, steps) {
      SharedBaseStays(member, t);
    }
    ReachedArePlaces(Start(w, AtDecl(0), whole), place);
  }

  lemma SharedBaseDeclsHave(member: Name)
    ensures Has(3, SharedBase(member), AtDecl(1), [Field(member)])
    ensures Has(3, SharedBase(member), AtDecl(2), [Field(member)])
  {
    var w, steps := SharedBase(member), [Field(member)];
    SharedBaseDeclMoves(member);
    DerivationsMove(1, w, AtDecl(3), steps);
    assert [Some(AtDecl(3))][0] == Some(AtDecl(3)) && Has(2, w, AtDecl(3), steps);
    DerivationsMove(2, w, AtDecl(1), steps);
    DerivationsMove(2, w, AtDecl(2), steps);
  }

  lemma SharedBaseHas(member: Name)
    ensures Has(6, SharedBase(member), AtDecl(0), [Field(member)])
  {
    var w, steps := SharedBase(member), [Field(member)];
    SharedBaseMoves(member);
    SharedBaseDeclsHave(member);
    var u := AtType(0, Union([Named("A"), Named("B")]));
    HasGoes(3, w, AtType(0, Named("A")), steps, AtDecl(1), steps);
    HasGoes(3, w, AtType(0, Named("B")), steps, AtDecl(2), steps);
    HasBoth(4, w, u, steps, AtType(0, Named("A")), AtType(0, Named("B")));
    HasGoes(5, w, AtDecl(0), steps, u, steps);
  }

  /** The first branch finds the member in `C`, the second finds `C` visited. */
  lemma SharedBaseBranches(member: Name, fuel: nat, seen: set<Key>)
    requires (1, 1) !in seen && (2, 1) !in seen && (3, 1) !in seen
    ensures var w, steps := SharedBase(member), [Field(member)];
      var between := seen + {(1, 1)} + {(3, 1)};
      && Walk(fuel + 3, w, AtType(0, Named("A")), steps, seen) == Done(Found, between)
      && Walk(fuel + 3, w, AtType(0, Named("B")), steps, between) == Done(Unknown, between + {(2, 1)})
  {
    var w, steps := SharedBase(member), [Field(member)];
    var between := seen + {(1, 1)} + {(3, 1)};
    SharedBaseMoves(member);
    SharedBaseDeclMoves(member);
    WalkGoes(fuel + 2, w, AtType(0, Named("A")), steps, seen, AtDecl(1), steps);
    WalkConsultsOne(fuel + 1, w, AtDecl(1), steps, seen, AtDecl(3));
    WalkAnswers(fuel, w, AtDecl(3), steps, seen + {(1, 1)});
    WalkGoes(fuel + 2, w, AtType(0, Named("B")), steps, between, AtDecl(2), steps);
    WalkConsultsOne(fuel + 1, w, AtDecl(2), steps, between, AtDecl(3));
  }

  /** The member both branches of the union have is answered `Unknown`. */
  lemma UnionHidesPresence(member: Name, fuel: nat)
    ensures StepsAgree(Start(SharedBase(member), AtDecl(0), [Field(member)]))
    ensures ProvablyPresent(SharedBase(member), AtDecl(0), [Field(member)])
    ensures Walk(fuel + 5, SharedBase(member), AtDecl(0), [Field(member)], {}).Done?
    ensures Walk(fuel + 5, SharedBase(member), AtDecl(0), [Field(member)], {}).value == Unknown
  {
    var w, steps := SharedBase(member), [Field(member)];
    var u, a, b := AtType(0, Union([Named("A"), Named("B")])), AtType(0, Named("A")), AtType(0, Named("B"));
    var seen := Mark(w, AtDecl(0), steps, {});
    var between := seen + {(1, 1)} + {(3, 1)};
    SharedBaseStepsAgree(member);
    SharedBaseHas(member);
    SharedBaseMoves(member);
    WalkGoes(fuel + 4, w, AtDecl(0), steps, {}, u, steps);
    SharedBaseBranches(member, fuel, seen);
    WalkDisagrees(fuel + 3, w, u, steps, seen, a, b, between, between + {(2, 1)});
  }

  lemma SelfReferringDeclMoves()
    ensures var w, config, items := SelfReferring(), Named("Config"), Name("items");
      && MoveFrom(w, AtDecl(0), [Field(Name("first")), Element])
         == Go(AtType(0, Indexed(config, Some(items))), [Element])
      && MoveFrom(w, AtDecl(0), [Field(items), Element]) == Go(AtType(0, ArrayOf(Named("Item"))), [Element])
  {
  }

  lemma SelfReferringTypeMoves()
    ensures var w, config, items := SelfReferring(), Named("Config"), Name("items");
      var longer := [Field(items), Element];
      && MoveFrom(w, AtType(0, Indexed(config, Some(items))), [Element]) == Go(AtType(0, config), longer)
      && MoveFrom(w, AtType(0, config), longer) == Go(AtDecl(0), longer)
      && MoveFrom(w, AtType(0, ArrayOf(Named("Item"))), [Element]) == Go(AtType(0, Named("Item")), [])
  {
    var w := SelfReferring();
    assert Resolve(w, 0, Name("Config")) == Some(0);
  }

  lemma SelfReferringResolves()
    ensures Resolve(SelfReferring(), 0, Name("Config")) == Some(0)
    ensures Resolve(SelfReferring(), 0, Name("Item")) == Some(1)
  {
  }

  /** What is reached of these declarations: no type of theirs is a union. */
  predicate OfSelfReferring(t: Target) {
    t in {AtDecl(0), AtDecl(1)} ||
    (t.AtType? && t.file == 0 &&
      t.ty in {Named("Config"), Named("Item"), ArrayOf(Named("Item")), Indexed(Named("Config"), Some(Name("items")))})
  }

  lemma SelfReferringStays(t: Target, steps: seq<Step>)
    requires OfSelfReferring(t) && steps != []
    ensures var m := MoveFrom(SelfReferring(), t, steps);
      m.Answer? || (m.Go? && OfSelfReferring(m.target)) || (m.AnyOf? && m.targets == [])
  {
    SelfReferringResolves();
  }

  lemma SelfReferringHasNoUnion(path: seq<Step>)
    ensures NoUnion(Start(SelfReferring(), AtDecl(0), path))
  {
    var w, place := SelfReferring(), (t: Target, steps: seq<Step>) => OfSelfReferring(t);
    forall t, steps | place(t, steps) && steps != []
      ensures ClosedAt(w, place, t, steps) && !MoveFrom(w, t, steps).EachOf?
    {
      SelfReferringStays(t, steps);
    }
    ReachedArePlaces(Start(w, AtDecl(0), path), place);
  }

  lemma SelfReferringHas()
    ensures Has(6, SelfReferring(), AtDecl(0), [Field(Name("first")), Element])
  {
    var w, config, items := SelfReferring(), Named("Config"), Name("items");
    var longer, elements, indexed :=
      [Field(items), Element], AtType(0, ArrayOf(Named("Item"))), AtType(0, Indexed(config, Some(items)));
    SelfReferringDeclMoves();
    SelfReferringTypeMoves();
    HasGoes(1, w, elements, [Element], AtType(0, Named("Item")), []);
    HasGoes(2, w, AtDecl(0), longer, elements, [Element]);
    HasGoes(3, w, AtType(0, config), longer, AtDecl(0), longer);
    HasGoes(4, w, indexed, [Element], AtType(0, config), longer);
    HasGoes(5, w, AtDecl(0), [Field(Name("first")), Element], indexed, [Element]);
  }

  /**
   * `first` is `Config['items']`: the index leads back to `Config` with as many steps left, and an
   * element of `first`, which exists, is answered `Unknown`.
   */
  lemma SelfIndexHidesPresence(fuel: nat)
    ensures NoUnion(Start(SelfReferring(), AtDecl(0), [Field(Name("first")), Element]))
    ensures ProvablyPresent(SelfReferring(), AtDecl(0), [Field(Name("first")), Element])
    ensures Walk(fuel + 4, SelfReferring(), AtDecl(0), [Field(Name("first")), Element], {}).Done?
    ensures Walk(fuel + 4, SelfReferring(), AtDecl(0), [Field(Name("first")), Element], {}).value == Unknown
  {
    var w, config, items := SelfReferring(), Named("Config"), Name("items");
    var steps, longer := [Field(Name("first")), Element], [Field(items), Element];
    var indexed := AtType(0, Indexed(config, Some(items)));
    var seen := Mark(w, AtDecl(0), steps, {});
    SelfReferringHasNoUnion(steps);
    SelfReferringHas();
    SelfReferringDeclMoves();
    SelfReferringTypeMoves();
    WalkGoes(fuel + 3, w, AtDecl(0), steps, {}, indexed, [Element]);
    WalkGoes(fuel + 2, w, indexed, [Element], seen, AtType(0, config), longer);
    WalkGoes(fuel + 1, w, AtType(0, config), longer, seen, AtDecl(0), longer);
    assert Met(w, AtDecl(0), longer, seen);
  }
}
