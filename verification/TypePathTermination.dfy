/** When the type-path walk comes back. */
module TypePathTermination {
  import opened Wrappers
  import opened CatalogNames
  import opened TypePathPrecision
  import opened TypePaths

  // ---------------------------------------------------------------- the answer is stack independent

  /** A deeper stack never changes an answer. */
  lemma {:induction false} MoreFuelSameAnswer(fuel: nat, more: nat, w: World, t: Target, steps: seq<Step>,
          seen: set<Key>)
    requires fuel <= more && Walk(fuel, w, t, steps, seen).Done?
    ensures Walk(more, w, t, steps, seen) == Walk(fuel, w, t, steps, seen)
    decreases fuel, 0
  {
    if steps == [] || Met(w, t, steps, seen) {
    } else {
      MoreFuelSameFollow(fuel - 1, more - 1, w, MoveFrom(w, t, steps), steps, Mark(w, t, steps, seen));
    }
  }

  lemma {:induction false} MoreFuelSameFollow(fuel: nat, more: nat, w: World, m: Move, steps: seq<Step>, seen: set<Key>)
    requires fuel <= more && Follow(fuel, w, m, steps, seen).Done?
    ensures Follow(more, w, m, steps, seen) == Follow(fuel, w, m, steps, seen)
    decreases fuel, |Successors(m)| + 2
  {
    match m
    case Answer(_) =>
    case Go(target, rest) => MoreFuelSameAnswer(fuel, more, w, target, rest, seen);
    case AnyOf(targets) => MoreFuelSameAnswers(fuel, more, w, targets, steps, seen);
    case EachOf(targets) => MoreFuelSameAnswers(fuel, more, w, targets, steps, seen);
  }

  lemma {:induction false} MoreFuelSameAnswers(fuel: nat, more: nat, w: World, targets: seq<Option<Target>>,
          steps: seq<Step>, seen: set<Key>)
    requires fuel <= more && WalkAll(fuel, w, targets, steps, seen).Done?
    ensures WalkAll(more, w, targets, steps, seen) == WalkAll(fuel, w, targets, steps, seen)
    decreases fuel, |targets| + 1
  {
    if targets == [] {
    } else {
      var front, last := targets[..|targets| - 1], targets[|targets| - 1];
      MoreFuelSameAnswers(fuel, more, w, front, steps, seen);
      if last.Some? {
        MoreFuelSameAnswer(fuel, more, w, last.value, steps, WalkAll(fuel, w, front, steps, seen).seen);
      }
    }
  }

  function Max(a: nat, b: nat): nat { if a < b then b else a }

  // ---------------------------------------------------------------- how long the path gets

  /** The longest path any frame of the walk stands before, as far as a stack of `fuel` frames takes it. */
  function Longest(fuel: nat, w: World, t: Target, steps: seq<Step>, seen: set<Key>): nat
    decreases fuel, 0
  {
    if fuel == 0 then 0
    else if steps == [] || Met(w, t, steps, seen) then |steps|
    else Max(|steps|, LongestBeyond(fuel - 1, w, MoveFrom(w, t, steps), steps, Mark(w, t, steps, seen)))
  }

  function LongestBeyond(fuel: nat, w: World, m: Move, steps: seq<Step>, seen: set<Key>): nat
    decreases fuel, |Successors(m)| + 2
  {
    match m
    case Answer(_) => 0
    case Go(target, rest) => Longest(fuel, w, target, rest, seen)
    case AnyOf(targets) => LongestAll(fuel, w, targets, steps, seen)
    case EachOf(targets) => LongestAll(fuel, w, targets, steps, seen)
  }

  function LongestAll(fuel: nat, w: World, targets: seq<Option<Target>>, steps: seq<Step>, seen: set<Key>): nat
    decreases fuel, |targets| + 1
  {
    if targets == [] then 0
    else
      var front, last := targets[..|targets| - 1], targets[|targets| - 1];
      Max(LongestAll(fuel, w, front, steps, seen),
          match WalkAll(fuel, w, front, steps, seen)
          case Overflow => 0
          case Done(_, seen') => if last.None? then 0 else Longest(fuel, w, last.value, steps, seen'))
  }

  /** A deeper stack takes the walk no less far, and no further once it has answered. */
  lemma {:induction false} MoreFuelLongest(fuel: nat, more: nat, w: World, t: Target, steps: seq<Step>, seen: set<Key>)
    requires fuel <= more
    ensures Longest(fuel, w, t, steps, seen) <= Longest(more, w, t, steps, seen)
    ensures Walk(fuel, w, t, steps, seen).Done? ==>
      Longest(fuel, w, t, steps, seen) == Longest(more, w, t, steps, seen)
    decreases fuel, 0
  {
    if fuel == 0 || steps == [] || Met(w, t, steps, seen) {
    } else {
      MoreFuelLongestBeyond(fuel - 1, more - 1, w, MoveFrom(w, t, steps), steps, Mark(w, t, steps, seen));
    }
  }

  lemma {:induction false} MoreFuelLongestBeyond(fuel: nat, more: nat, w: World, m: Move, steps: seq<Step>,
          seen: set<Key>)
    requires fuel <= more
    ensures LongestBeyond(fuel, w, m, steps, seen) <= LongestBeyond(more, w, m, steps, seen)
    ensures Follow(fuel, w, m, steps, seen).Done? ==>
      LongestBeyond(fuel, w, m, steps, seen) == LongestBeyond(more, w, m, steps, seen)
    decreases fuel, |Successors(m)| + 2
  {
    match m
    case Answer(_) =>
    case Go(target, rest) => MoreFuelLongest(fuel, more, w, target, rest, seen);
    case AnyOf(targets) => MoreFuelLongestAll(fuel, more, w, targets, steps, seen);
    case EachOf(targets) => MoreFuelLongestAll(fuel, more, w, targets, steps, seen);
  }

  lemma {:induction false} MoreFuelLongestAll(fuel: nat, more: nat, w: World, targets: seq<Option<Target>>,
          steps: seq<Step>, seen: set<Key>)
    requires fuel <= more
    ensures LongestAll(fuel, w, targets, steps, seen) <= LongestAll(more, w, targets, steps, seen)
    ensures WalkAll(fuel, w, targets, steps, seen).Done? ==>
      LongestAll(fuel, w, targets, steps, seen) == LongestAll(more, w, targets, steps, seen)
    decreases fuel, |targets| + 1
  {
    if targets == [] {
    } else {
      var front, last := targets[..|targets| - 1], targets[|targets| - 1];
      MoreFuelLongestAll(fuel, more, w, front, steps, seen);
      var before := WalkAll(fuel, w, front, steps, seen);
      if before.Done? {
        MoreFuelSameAnswers(fuel, more, w, front, steps, seen);
        if last.Some? {
          MoreFuelLongest(fuel, more, w, last.value, steps, before.seen);
        }
      }
    }
  }

  // ---------------------------------------------------------------- layered declarations

  ghost predicate IdFits(rank: map<DeclId, nat>, id: DeclId, r: nat) {
    id in rank && rank[id] <= r
  }

  /**
   * Every reference under `ty` reaches a declaration of rank at most `r`. Passing an indexed access,
   * which adds a step to the path, spends a rank; entering a member or an element, which takes one
   * off, gives a rank back.
   */
  ghost predicate Fits(w: World, rank: map<DeclId, nat>, file: File, ty: Type, r: nat)
    decreases ty
  {
    match ty
    case Literal(members) => forall i :: 0 <= i < |members| ==> MemberFits(w, rank, file, members[i], r)
    case Parenthesized(inner) => Fits(w, rank, file, inner, r)
    case Intersection(parts) => forall i :: 0 <= i < |parts| ==> Fits(w, rank, file, parts[i], r)
    case Union(parts) => forall i :: 0 <= i < |parts| ==> Fits(w, rank, file, parts[i], r)
    case ArrayOf(element) => Fits(w, rank, file, element, r + 1)
    case Operator(operand) => Fits(w, rank, file, operand, r)
    case Indexed(base, index) => index.Some? ==> r > 0 && Fits(w, rank, file, base, r - 1)
    case Reference(name, qualified, args) =>
      if IsPassthrough(name) && args != [] then Fits(w, rank, file, args[0], r)
      else if IsArrayName(name) && args != [] then Fits(w, rank, file, args[0], r + 1)
      else !qualified && Resolve(w, file, name).Some? ==> IdFits(rank, Resolve(w, file, name).value, r)
    case Other => true
  }

  ghost predicate MemberFits(w: World, rank: map<DeclId, nat>, file: File, m: Member, r: nat)
    decreases m
  {
    m.Property? && m.ty.Some? ==> Fits(w, rank, file, m.ty.value, r + 1)
  }

  ghost predicate DeclFits(w: World, rank: map<DeclId, nat>, site: Site, r: nat) {
    match site.decl
    case Interface(members, bases) =>
      && (forall i :: 0 <= i < |members| ==> MemberFits(w, rank, site.file, members[i], r))
      && (forall i :: 0 <= i < |bases| && BaseTarget(w, site.file, bases[i]).Some? ==>
        IdFits(rank, BaseTarget(w, site.file, bases[i]).value.id, r))
    case Alias(ty) => Fits(w, rank, site.file, ty, r)
    case Enum => true
  }

  /** Declarations can be ranked: on no cycle of references do indexed accesses outnumber members and elements. */
  ghost predicate Layered(w: World, rank: map<DeclId, nat>) {
    && rank.Keys == w.sites.Keys
    && forall id :: id in w.sites ==> DeclFits(w, rank, w.sites[id], rank[id])
  }

  ghost predicate TargetFits(w: World, rank: map<DeclId, nat>, t: Target, r: nat) {
    match t
    case AtDecl(id) => id in w.sites && IdFits(rank, id, r)
    case AtType(file, ty) => Fits(w, rank, file, ty, r)
  }

  // ---------------------------------------------------------------- stack depth

  function TypeDepth(ty: Type): nat
    decreases ty, 0
  {
    1 + match ty
        case Literal(members) => MembersDepth(members)
        case Parenthesized(inner) => TypeDepth(inner)
        case Intersection(parts) => PartsDepth(parts)
        case Union(parts) => PartsDepth(parts)
        case ArrayOf(element) => TypeDepth(element)
        case Operator(operand) => TypeDepth(operand)
        case Indexed(base, _) => TypeDepth(base)
        case Reference(_, _, args) => PartsDepth(args)
        case Other => 0
  }

  function PartsDepth(parts: seq<Type>): (d: nat)
    ensures forall i :: 0 <= i < |parts| ==> TypeDepth(parts[i]) <= d
    decreases parts, 1
  {
    if parts == [] then 0
    else
      var last := parts[|parts| - 1];
      Max(PartsDepth(parts[..|parts| - 1]), TypeDepth(last))
  }

  function MemberDepth(m: Member): nat
    decreases m, 0
  {
    if m.Property? && m.ty.Some? then TypeDepth(m.ty.value) else 0
  }

  function MembersDepth(members: seq<Member>): (d: nat)
    ensures forall m :: m in members ==> MemberDepth(m) <= d
    decreases members, 1
  {
    if members == [] then 0
    else Max(MembersDepth(members[..|members| - 1]), MemberDepth(members[|members| - 1]))
  }

  /** No declaration nests types deeper than `d`. */
  ghost predicate Shallow(w: World, d: nat) {
    forall id :: id in w.sites ==>
      match w.sites[id].decl
      case Interface(members, _) => MembersDepth(members) <= d
      case Alias(ty) => TypeDepth(ty) <= d
      case Enum => true
  }

  function Size(t: Target): nat {
    match t
    case AtDecl(_) => 1
    case AtType(_, ty) => TypeDepth(ty) + 1
  }

  /** The declarations, with path lengths up to `l`, that the walk has not visited yet. */
  ghost function Unseen(w: World, l: nat, seen: set<Key>): set<Key> {
    set id, n | id in w.sites && 0 <= n <= l && (id, n) !in seen :: (id, n)
  }

  /** The frames a walk may still need. */
  ghost function FramesNeeded(w: World, d: nat, l: nat, seen: set<Key>, size: nat): nat {
    |Unseen(w, l, seen)| * (d + 2) + size
  }

  lemma ProductGrows(m: nat, n: nat, k: nat)
    requires m <= n
    ensures m * k <= n * k
  {
  }

  lemma {:induction false} SubsetIsSmaller<T>(a: set<T>, b: set<T>)
    requires a <= b
    ensures |a| <= |b|
  {
    if a == {} {
    } else {
      var x :| x in a;
      SubsetIsSmaller(a - {x}, b - {x});
    }
  }

  /** What has been visited in the meantime needs no frames. */
  lemma VisitedNeedsLess(w: World, d: nat, l: nat, seen: set<Key>, seen': set<Key>, size: nat)
    requires seen <= seen'
    ensures FramesNeeded(w, d, l, seen', size) <= FramesNeeded(w, d, l, seen, size)
  {
    SubsetIsSmaller(Unseen(w, l, seen'), Unseen(w, l, seen));
    ProductGrows(|Unseen(w, l, seen')|, |Unseen(w, l, seen)|, d + 2);
  }

  lemma VisitSpendsFrames(w: World, d: nat, l: nat, seen: set<Key>, key: Key)
    requires key.0 in w.sites && key.1 <= l && key !in seen
    ensures FramesNeeded(w, d, l, seen + {key}, d + 2) <= FramesNeeded(w, d, l, seen, 0)
  {
    assert Unseen(w, l, seen + {key}) == Unseen(w, l, seen) - {key};
    assert key in Unseen(w, l, seen);
    var n := |Unseen(w, l, seen)|;
    assert (n - 1) * (d + 2) + (d + 2) == n * (d + 2);
  }

  // ---------------------------------------------------------------- bounded paths

  lemma PropertyDepth(members: seq<Member>, name: Name)
    requires FirstProperty(members, name).Some? && FirstProperty(members, name).value.Some?
    ensures TypeDepth(FirstProperty(members, name).value.value) <= MembersDepth(members)
  {
    assert MemberDepth(Property(name, FirstProperty(members, name).value)) <= MembersDepth(members);
  }

  ghost predicate AllWithin(targets: seq<Option<Target>>, size: nat) {
    forall i :: 0 <= i < |targets| && targets[i].Some? ==> Size(targets[i].value) <= size
  }

  /** What the stack still has to hold below a target: types get smaller, declarations are shallow. */
  function SizeBelow(t: Target, d: nat): nat {
    if t.AtDecl? then d + 1 else TypeDepth(t.ty)
  }

  lemma MoveIsSmaller(w: World, d: nat, t: Target, steps: seq<Step>)
    requires Shallow(w, d) && steps != []
    ensures AllWithin(Successors(MoveFrom(w, t, steps)), SizeBelow(t, d))
  {
    if t.AtDecl? && t.id in w.sites && w.sites[t.id].decl.Interface? {
      if MoveFrom(w, t, steps).Go? {
        PropertyDepth(w.sites[t.id].decl.members, steps[0].name);
      }
    } else if t.AtType? && t.ty.Literal? && MoveFrom(w, t, steps).Go? {
      PropertyDepth(t.ty.members, steps[0].name);
    }
  }

  /** Entering a target leaves the frames that what is below it needs. */
  lemma MarkLeavesFrames(w: World, d: nat, l: nat, t: Target, steps: seq<Step>, seen: set<Key>)
    requires |steps| <= l && !Met(w, t, steps, seen)
    ensures !(t.AtDecl? && !Guarded(w, t)) ==>
      FramesNeeded(w, d, l, Mark(w, t, steps, seen), SizeBelow(t, d)) < FramesNeeded(w, d, l, seen, Size(t))
  {
    if Guarded(w, t) {
      VisitSpendsFrames(w, d, l, seen, (t.id, |steps|));
    }
  }

  /** While its frames' paths stay within a bound, the walk needs no more than the bound's frames. */
  lemma {:induction false} BoundedWalkAnswers(fuel: nat, w: World, d: nat, l: nat, t: Target, steps: seq<Step>,
          seen: set<Key>)
    requires Shallow(w, d) && Longest(fuel, w, t, steps, seen) <= l
    requires fuel >= FramesNeeded(w, d, l, seen, Size(t))
    ensures Walk(fuel, w, t, steps, seen).Done?
    decreases fuel, 0
  {
    if steps == [] || Met(w, t, steps, seen) {
    } else {
      MoveIsSmaller(w, d, t, steps);
      MarkLeavesFrames(w, d, l, t, steps, seen);
      BoundedFollowAnswers(fuel - 1, w, d, l, SizeBelow(t, d), MoveFrom(w, t, steps), steps, Mark(w, t, steps, seen));
    }
  }

  lemma {:induction false} BoundedFollowAnswers(fuel: nat, w: World, d: nat, l: nat, size: nat, m: Move,
          steps: seq<Step>, seen: set<Key>)
    requires Shallow(w, d) && LongestBeyond(fuel, w, m, steps, seen) <= l
    requires AllWithin(Successors(m), size)
    requires m.Answer? || fuel >= FramesNeeded(w, d, l, seen, size)
    ensures Follow(fuel, w, m, steps, seen).Done?
    decreases fuel, |Successors(m)| + 2
  {
    match m
    case Answer(_) =>
    case Go(target, rest) =>
      assert Successors(m)[0] == Some(target);
      BoundedWalkAnswers(fuel, w, d, l, target, rest, seen);
    case AnyOf(targets) =>
      BoundedWalkAllAnswers(fuel, w, d, l, size, targets, steps, seen);
    case EachOf(targets) =>
      BoundedWalkAllAnswers(fuel, w, d, l, size, targets, steps, seen);
  }

  lemma {:induction false} BoundedWalkAllAnswers(fuel: nat, w: World, d: nat, l: nat, size: nat,
                                                 targets: seq<Option<Target>>, steps: seq<Step>, seen: set<Key>)
    requires Shallow(w, d) && LongestAll(fuel, w, targets, steps, seen) <= l
    requires AllWithin(targets, size)
    requires fuel >= FramesNeeded(w, d, l, seen, size)
    ensures WalkAll(fuel, w, targets, steps, seen).Done?
    decreases fuel, |targets| + 1
  {
    if targets == [] {
    } else {
      var front, last := targets[..|targets| - 1], targets[|targets| - 1];
      BoundedWalkAllAnswers(fuel, w, d, l, size, front, steps, seen);
      var before := WalkAll(fuel, w, front, steps, seen);
      if last.Some? {
        VisitedNeedsLess(w, d, l, seen, before.seen, size);
        BoundedWalkAnswers(fuel, w, d, l, last.value, steps, before.seen);
      }
    }
  }

  function DeclDepth(decl: Decl): nat {
    match decl
    case Interface(members, _) => MembersDepth(members)
    case Alias(ty) => TypeDepth(ty)
    case Enum => 0
  }

  lemma {:induction false} SomeDepthSuffices(w: World, ids: set<DeclId>) returns (d: nat)
    requires ids <= w.sites.Keys
    ensures forall id :: id in ids ==> DeclDepth(w.sites[id].decl) <= d
  {
    if ids == {} {
      d := 0;
    } else {
      var id :| id in ids;
      d := SomeDepthSuffices(w, ids - {id});
      d := Max(d, DeclDepth(w.sites[id].decl));
    }
  }

  lemma SomeWorldDepth(w: World) returns (d: nat)
    ensures Shallow(w, d)
  {
    d := SomeDepthSuffices(w, w.sites.Keys);
    forall id | id in w.sites
      ensures match w.sites[id].decl
        case Interface(members, _) => MembersDepth(members) <= d
        case Alias(ty) => TypeDepth(ty) <= d
        case Enum => true
    {
      assert DeclDepth(w.sites[id].decl) <= d;
    }
  }

  /** Some stack is deep enough for the walk. */
  ghost predicate Answers(w: World, t: Target, steps: seq<Step>, seen: set<Key>) {
    exists fuel: nat :: Walk(fuel, w, t, steps, seen).Done?
  }

  /** However deep the stack, no frame stands before a path longer than `l`. */
  ghost predicate StaysWithin(w: World, t: Target, steps: seq<Step>, seen: set<Key>, l: nat) {
    forall fuel: nat :: Longest(fuel, w, t, steps, seen) <= l
  }

  /**
   * The walk comes back exactly when the paths of its frames stay bounded: nothing else, and in
   * particular no cycle of declarations, can keep it going.
   */
  lemma AnswersIffPathsStayBounded(w: World, t: Target, steps: seq<Step>, seen: set<Key>)
    ensures Answers(w, t, steps, seen) <==> exists l: nat :: StaysWithin(w, t, steps, seen, l)
  {
    if Answers(w, t, steps, seen) {
      var enough: nat :| Walk(enough, w, t, steps, seen).Done?;
      var l := Longest(enough, w, t, steps, seen);
      forall fuel: nat ensures Longest(fuel, w, t, steps, seen) <= l {
        if fuel <= enough {
          MoreFuelLongest(fuel, enough, w, t, steps, seen);
        } else {
          MoreFuelLongest(enough, fuel, w, t, steps, seen);
        }
      }
      assert StaysWithin(w, t, steps, seen, l);
    }
    if l: nat :| StaysWithin(w, t, steps, seen, l) {
      var d := SomeWorldDepth(w);
      BoundedWalkAnswers(FramesNeeded(w, d, l, seen, Size(t)), w, d, l, t, steps, seen);
    }
  }

  // ---------------------------------------------------------------- a condition on reference paths

  /** No reference path leads to a position with more than `l` steps left. */
  ghost predicate ShortPaths(w: World, t: Target, steps: seq<Step>, l: nat) {
    forall c :: Position(w, t, steps, c).Some? ==> |Position(w, t, steps, c).value.1| <= l
  }

  ghost predicate ShortBranches(w: World, targets: seq<Option<Target>>, steps: seq<Step>, l: nat) {
    forall i :: 0 <= i < |targets| && targets[i].Some? ==> ShortPaths(w, targets[i].value, steps, l)
  }

  lemma BranchesStayShort(w: World, t: Target, steps: seq<Step>, l: nat)
    requires steps != [] && ShortPaths(w, t, steps, l)
    ensures |steps| <= l
    ensures var m := MoveFrom(w, t, steps); ShortBranches(w, Successors(m), StepsAfter(m, steps), l)
  {
    var m := MoveFrom(w, t, steps);
    assert Position(w, t, steps, []) == Some((t, steps));
    forall i, c | 0 <= i < |Successors(m)| && Successors(m)[i].Some?
      && Position(w, Successors(m)[i].value, StepsAfter(m, steps), c).Some?
      ensures |Position(w, Successors(m)[i].value, StepsAfter(m, steps), c).value.1| <= l
    {
      PositionThrough(w, t, steps, i, c);
    }
  }

  /** What every reference path keeps short, the frames of the walk do. */
  lemma {:induction false} ShortPathsBoundWalk(fuel: nat, w: World, t: Target, steps: seq<Step>, seen: set<Key>, l: nat)
    requires ShortPaths(w, t, steps, l)
    ensures Longest(fuel, w, t, steps, seen) <= l
    decreases fuel, 0
  {
    assert Position(w, t, steps, []) == Some((t, steps));
    if fuel == 0 || steps == [] || Met(w, t, steps, seen) {
    } else {
      BranchesStayShort(w, t, steps, l);
      ShortBranchesBoundFollow(fuel - 1, w, MoveFrom(w, t, steps), steps, Mark(w, t, steps, seen), l);
    }
  }

  lemma {:induction false} ShortBranchesBoundFollow(fuel: nat, w: World, m: Move, steps: seq<Step>, seen: set<Key>,
          l: nat)
    requires ShortBranches(w, Successors(m), StepsAfter(m, steps), l)
    ensures LongestBeyond(fuel, w, m, steps, seen) <= l
    decreases fuel, |Successors(m)| + 2
  {
    match m
    case Answer(_) =>
    case Go(target, rest) =>
      assert Successors(m)[0] == Some(target);
      ShortPathsBoundWalk(fuel, w, target, rest, seen, l);
    case AnyOf(targets) => ShortBranchesBoundAll(fuel, w, targets, steps, seen, l);
    case EachOf(targets) => ShortBranchesBoundAll(fuel, w, targets, steps, seen, l);
  }

  lemma {:induction false} ShortBranchesBoundAll(fuel: nat, w: World, targets: seq<Option<Target>>, steps: seq<Step>,
                                                 seen: set<Key>, l: nat)
    requires ShortBranches(w, targets, steps, l)
    ensures LongestAll(fuel, w, targets, steps, seen) <= l
    decreases fuel, |targets| + 1
  {
    if targets == [] {
    } else {
      var front, last := targets[..|targets| - 1], targets[|targets| - 1];
      ShortBranchesBoundAll(fuel, w, front, steps, seen, l);
      var before := WalkAll(fuel, w, front, steps, seen);
      if before.Done? && last.Some? {
        ShortPathsBoundWalk(fuel, w, last.value, steps, before.seen, l);
      }
    }
  }

  /** Where reference paths stay short the walk answers, whatever was visited before. */
  lemma ShortPathsAnswer(w: World, t: Target, steps: seq<Step>, seen: set<Key>, l: nat)
    requires ShortPaths(w, t, steps, l)
    ensures Answers(w, t, steps, seen)
  {
    forall fuel: nat ensures Longest(fuel, w, t, steps, seen) <= l {
      ShortPathsBoundWalk(fuel, w, t, steps, seen, l);
    }
    assert StaysWithin(w, t, steps, seen, l);
    AnswersIffPathsStayBounded(w, t, steps, seen);
  }

  /** None of the visited declarations is reached again. */
  ghost predicate Fresh(w: World, t: Target, steps: seq<Step>, seen: set<Key>) {
    forall k :: k in seen ==> !ReachedFrom(w, t, steps, k)
  }

  ghost predicate FreshBranches(w: World, targets: seq<Option<Target>>, steps: seq<Step>, seen: set<Key>) {
    forall i :: 0 <= i < |targets| && targets[i].Some? ==> Fresh(w, targets[i].value, steps, seen)
  }

  lemma BranchesStayFresh(w: World, t: Target, steps: seq<Step>, seen: set<Key>)
    requires steps != [] && ReachedOnce(w, t, steps) && Fresh(w, t, steps, seen)
    ensures !Met(w, t, steps, seen)
    ensures var m := MoveFrom(w, t, steps);
      FreshBranches(w, Successors(m), StepsAfter(m, steps), Mark(w, t, steps, seen))
  {
    var m := MoveFrom(w, t, steps);
    if Guarded(w, t) {
      assert Reached(w, t, steps, []) == Some((t.id, |steps|));
      assert ReachedFrom(w, t, steps, (t.id, |steps|));
    }
    forall i, k | 0 <= i < |Successors(m)| && Successors(m)[i].Some? && k in Mark(w, t, steps, seen)
      ensures !ReachedFrom(w, Successors(m)[i].value, StepsAfter(m, steps), k)
    {
      if ReachedFrom(w, Successors(m)[i].value, StepsAfter(m, steps), k) {
        EntryStaysApart(w, t, steps, i, k);
      }
    }
  }

  /** Where nothing is reached twice, the visited set stops nothing: an answered walk needs no memory. */
  lemma {:induction false} AnsweredIsConsulted(fuel: nat, w: World, t: Target, steps: seq<Step>, seen: set<Key>)
    requires ReachedOnce(w, t, steps) && Fresh(w, t, steps, seen)
    requires Walk(fuel, w, t, steps, seen).Done?
    ensures Consulted(fuel, w, t, steps).Some?
    decreases fuel, 0
  {
    if steps == [] {
    } else {
      BranchesStayApart(w, t, steps);
      BranchesStayFresh(w, t, steps, seen);
      FollowedIsConsulted(fuel - 1, w, MoveFrom(w, t, steps), steps, Mark(w, t, steps, seen));
    }
  }

  lemma {:induction false} FollowedIsConsulted(fuel: nat, w: World, m: Move, steps: seq<Step>, seen: set<Key>)
    requires BranchesApart(w, Successors(m), StepsAfter(m, steps))
    requires FreshBranches(w, Successors(m), StepsAfter(m, steps), seen)
    requires Follow(fuel, w, m, steps, seen).Done?
    ensures ConsultedBeyond(fuel, w, m, steps).Some?
    decreases fuel, |Successors(m)| + 2
  {
    match m
    case Answer(_) =>
    case Go(target, rest) =>
      assert Successors(m)[0] == Some(target);
      AnsweredIsConsulted(fuel, w, target, rest, seen);
    case AnyOf(targets) => AllAnsweredAreConsulted(fuel, w, targets, steps, seen);
    case EachOf(targets) => AllAnsweredAreConsulted(fuel, w, targets, steps, seen);
  }

  lemma {:induction false} AllAnsweredAreConsulted(fuel: nat, w: World, targets: seq<Option<Target>>, steps: seq<Step>,
          seen: set<Key>)
    requires BranchesApart(w, targets, steps) && FreshBranches(w, targets, steps, seen)
    requires WalkAll(fuel, w, targets, steps, seen).Done?
    ensures ConsultedAll(fuel, w, targets, steps).Some?
    decreases fuel, |targets| + 1
  {
    if targets == [] {
    } else {
      var n := |targets| - 1;
      var front, last := targets[..n], targets[n];
      AllAnsweredAreConsulted(fuel, w, front, steps, seen);
      if last.Some? {
        var before := WalkAll(fuel, w, front, steps, seen);
        WalkAllEntersConsulted(fuel, w, front, steps, seen);
        AllApartAreConsultedOnce(fuel, w, front, steps);
        forall k | k in before.seen ensures !ReachedFrom(w, last.value, steps, k) {
          if k !in seen {
            assert ReachedAmong(w, front, steps, k);
            var i: nat :| i < |front| && front[i].Some? && ReachedFrom(w, front[i].value, steps, k);
            assert targets[i] == front[i];
          }
        }
        AnsweredIsConsulted(fuel, w, last.value, steps, before.seen);
      }
    }
  }

  /** The first choice is a branch of the first move, which such a walk enters one frame deeper. */
  lemma FirstChoiceIsConsulted(fuel: nat, w: World, t: Target, steps: seq<Step>, c: seq<nat>)
    requires c != [] && Consulted(fuel, w, t, steps).Some? && Position(w, t, steps, c).Some?
    ensures steps != [] && fuel > 0
    ensures var m := MoveFrom(w, t, steps);
      && c[0] < |Successors(m)| && Successors(m)[c[0]].Some?
      && Consulted(fuel - 1, w, Successors(m)[c[0]].value, StepsAfter(m, steps)).Some?
      && Position(w, t, steps, c) == Position(w, Successors(m)[c[0]].value, StepsAfter(m, steps), c[1..])
  {
    var m := MoveFrom(w, t, steps);
    assert PositionBeyond(w, m, steps, c).Some?;
    MoveIsConsulted(fuel - 1, w, m, steps, c[0]);
  }

  lemma OneStepMore(w: World, t: Target, steps: seq<Step>)
    requires steps != []
    ensures |StepsAfter(MoveFrom(w, t, steps), steps)| <= |steps| + 1
  {
  }

  /** Each move adds at most one step, so what a walk without memory enters lies within its stack. */
  lemma {:induction false} ConsultedIsShort(fuel: nat, w: World, t: Target, steps: seq<Step>, c: seq<nat>)
    requires Consulted(fuel, w, t, steps).Some? && Position(w, t, steps, c).Some?
    ensures |Position(w, t, steps, c).value.1| <= |steps| + fuel
    decreases |c|
  {
    if c == [] {
    } else {
      FirstChoiceIsConsulted(fuel, w, t, steps, c);
      OneStepMore(w, t, steps);
      var m := MoveFrom(w, t, steps);
      ConsultedIsShort(fuel - 1, w, Successors(m)[c[0]].value, StepsAfter(m, steps), c[1..]);
    }
  }

  /**
   * Where no declaration is reached along two reference paths with as many steps left, a lookup comes
   * back exactly when the steps left along reference paths are bounded.
   */
  lemma AnswersIffShortPaths(w: World, t: Target, steps: seq<Step>)
    requires ReachedOnce(w, t, steps)
    ensures Answers(w, t, steps, {}) <==> exists l: nat :: ShortPaths(w, t, steps, l)
  {
    if Answers(w, t, steps, {}) {
      var fuel: nat :| Walk(fuel, w, t, steps, {}).Done?;
      AnsweredIsConsulted(fuel, w, t, steps, {});
      forall c | Position(w, t, steps, c).Some? ensures |Position(w, t, steps, c).value.1| <= |steps| + fuel {
        ConsultedIsShort(fuel, w, t, steps, c);
      }
      assert ShortPaths(w, t, steps, |steps| + fuel);
    }
    if l: nat :| ShortPaths(w, t, steps, l) {
      ShortPathsAnswer(w, t, steps, {}, l);
    }
  }

  // ---------------------------------------------------------------- layered declarations keep paths short

  lemma PropertyFits(w: World, rank: map<DeclId, nat>, file: File, members: seq<Member>, name: Name, r: nat)
    requires forall i :: 0 <= i < |members| ==> MemberFits(w, rank, file, members[i], r)
    requires FirstProperty(members, name).Some? && FirstProperty(members, name).value.Some?
    ensures Fits(w, rank, file, FirstProperty(members, name).value.value, r + 1)
  {
    var m := Property(name, FirstProperty(members, name).value);
    var i :| 0 <= i < |members| && members[i] == m;
    assert MemberFits(w, rank, file, members[i], r);
  }

  /** All targets fit at a rank that pays for the length of the path left to them. */
  ghost predicate AllFit(w: World, rank: map<DeclId, nat>, targets: seq<Option<Target>>, r: int) {
    r >= 0 && forall i :: 0 <= i < |targets| && targets[i].Some? ==> TargetFits(w, rank, targets[i].value, r)
  }

  /** What a move adds to the path it takes off the rank, and the other way round. */
  lemma TypeMoveFits(w: World, rank: map<DeclId, nat>, file: File, ty: Type, steps: seq<Step>, r: nat)
    requires steps != [] && Fits(w, rank, file, ty, r)
    ensures var m := MoveFrom(w, AtType(file, ty), steps);
      m.Answer? || AllFit(w, rank, Successors(m), r + |steps| - |StepsAfter(m, steps)|)
  {
    if ty.Literal? && MoveFrom(w, AtType(file, ty), steps).Go? {
      PropertyFits(w, rank, file, ty.members, steps[0].name, r);
    }
  }

  lemma DeclMoveFits(w: World, rank: map<DeclId, nat>, id: DeclId, steps: seq<Step>)
    requires Layered(w, rank) && steps != [] && id in w.sites
    ensures var m := MoveFrom(w, AtDecl(id), steps);
      m.Answer? || AllFit(w, rank, Successors(m), rank[id] + |steps| - |StepsAfter(m, steps)|)
  {
    var site := w.sites[id];
    assert DeclFits(w, rank, site, rank[id]);
    var m := MoveFrom(w, AtDecl(id), steps);
    if m.Go? && site.decl.Interface? {
      PropertyFits(w, rank, site.file, site.decl.members, steps[0].name, rank[id]);
    }
    if m.AnyOf? {
      forall i | 0 <= i < |m.targets| && m.targets[i].Some? ensures TargetFits(w, rank, m.targets[i].value, rank[id]) {
        assert m.targets[i] == BaseTarget(w, site.file, site.decl.bases[i]);
      }
    }
  }

  lemma MoveFits(w: World, rank: map<DeclId, nat>, t: Target, steps: seq<Step>, r: nat)
    requires Layered(w, rank) && TargetFits(w, rank, t, r) && steps != []
    ensures var m, q := MoveFrom(w, t, steps), if t.AtDecl? then rank[t.id] else r;
      q <= r && (m.Answer? || AllFit(w, rank, Successors(m), q + |steps| - |StepsAfter(m, steps)|))
  {
    match t
    case AtDecl(id) => DeclMoveFits(w, rank, id, steps);
    case AtType(file, ty) => TypeMoveFits(w, rank, file, ty, steps, r);
  }

  /** On layered declarations no path grows beyond its length and the rank it starts at. */
  lemma {:induction false} LayeredStaysShort(w: World, rank: map<DeclId, nat>, t: Target, r: nat, steps: seq<Step>,
          c: seq<nat>)
    requires Layered(w, rank) && TargetFits(w, rank, t, r) && Position(w, t, steps, c).Some?
    ensures |Position(w, t, steps, c).value.1| <= |steps| + r
    decreases |c|
  {
    if c == [] {
    } else {
      var m, i := MoveFrom(w, t, steps), c[0];
      assert PositionBeyond(w, m, steps, c).Some?;
      assert c == [i] + c[1..];
      PositionThrough(w, t, steps, i, c[1..]);
      MoveFits(w, rank, t, steps, r);
      var q := (if t.AtDecl? then rank[t.id] else r) + |steps| - |StepsAfter(m, steps)|;
      LayeredStaysShort(w, rank, Successors(m)[i].value, q, StepsAfter(m, steps), c[1..]);
    }
  }

  /** On layered declarations, cyclic or not, reference paths stay short, and the walk answers. */
  lemma WalkTerminates(w: World, rank: map<DeclId, nat>, id: DeclId, steps: seq<Step>, seen: set<Key>)
    requires Layered(w, rank) && id in w.sites
    ensures ShortPaths(w, AtDecl(id), steps, |steps| + rank[id])
    ensures Answers(w, AtDecl(id), steps, seen)
  {
    forall c | Position(w, AtDecl(id), steps, c).Some?
      ensures |Position(w, AtDecl(id), steps, c).value.1| <= |steps| + rank[id]
    {
      LayeredStaysShort(w, rank, AtDecl(id), rank[id], steps, c);
    }
    ShortPathsAnswer(w, AtDecl(id), steps, seen, |steps| + rank[id]);
  }

  /** The stack that short paths need is bounded by the visited-set universe times the deepest declaration. */
  lemma ShortPathsFrames(w: World, d: nat, l: nat, t: Target, steps: seq<Step>, seen: set<Key>)
    requires Shallow(w, d) && ShortPaths(w, t, steps, l)
    ensures Walk(FramesNeeded(w, d, l, seen, Size(t)), w, t, steps, seen).Done?
  {
    var fuel := FramesNeeded(w, d, l, seen, Size(t));
    ShortPathsBoundWalk(fuel, w, t, steps, seen, l);
    BoundedWalkAnswers(fuel, w, d, l, t, steps, seen);
  }

  // ---------------------------------------------------------------- on either side of the condition

  /** `type A = A['x']`: parses, and no rank layers it. */
  function SelfIndexed(): World {
    World(map[0 := Site(0, Alias(Indexed(Reference(Name("A"), false, []), Some(Name("x")))))],
          map[(0, Name("A")) := 0])
  }

  lemma GoOverflows(fuel: nat, w: World, t: Target, steps: seq<Step>, seen: set<Key>, target: Target, rest: seq<Step>)
    requires steps != [] && !Met(w, t, steps, seen) && MoveFrom(w, t, steps) == Go(target, rest)
    requires fuel > 0 ==> Walk(fuel - 1, w, target, rest, Mark(w, t, steps, seen)).Overflow?
    ensures Walk(fuel, w, t, steps, seen).Overflow?
  {
  }

  /** Where the paths keep growing the walk outgrows every stack: each round adds a step. */
  lemma {:induction false} SelfIndexOverflows(fuel: nat, steps: seq<Step>, seen: set<Key>)
    requires steps != []
    requires forall key :: key in seen ==> key.1 < |steps|
    ensures Walk(fuel, SelfIndexed(), AtDecl(0), steps, seen).Overflow?
    decreases fuel
  {
    var w := SelfIndexed();
    var a := Reference(Name("A"), false, []);
    var indexed := Indexed(a, Some(Name("x")));
    var longer := [Field(Name("x"))] + steps;
    var seen' := seen + {(0, |steps|)};
    assert Resolve(w, 0, Name("A")) == Some(0);
    if fuel >= 3 {
      SelfIndexOverflows(fuel - 3, longer, seen');
    }
    if fuel >= 2 {
      GoOverflows(fuel - 2, w, AtType(0, a), longer, seen', AtDecl(0), longer);
    }
    if fuel >= 1 {
      GoOverflows(fuel - 1, w, AtType(0, indexed), steps, seen', AtType(0, a), longer);
    }
    GoOverflows(fuel, w, AtDecl(0), steps, seen, AtType(0, indexed), steps);
  }

  /** `interface Config { items: Item[]; first: Config['items'] }`. */
  function SelfReferring(): World {
    var config, item := Reference(Name("Config"), false, []), Reference(Name("Item"), false, []);
    World(map[0 := Site(0, Interface([Property(Name("items"), Some(ArrayOf(item))),
                                      Property(Name("first"), Some(Indexed(config, Some(Name("items")))))], [])),
              1 := Site(0, Interface([], []))],
          map[(0, Name("Config")) := 0, (0, Name("Item")) := 1])
  }

  /** A member indexed out of its own declaration is layered: entering it takes off the step the index adds. */
  lemma SelfReferenceIsLayered(steps: seq<Step>, seen: set<Key>)
    ensures Layered(SelfReferring(), map[0 := 0, 1 := 0])
    ensures Answers(SelfReferring(), AtDecl(0), steps, seen)
  {
    var w, rank: map<DeclId, nat> := SelfReferring(), map[0 := 0, 1 := 0];
    var members := w.sites[0].decl.members;
    assert Resolve(w, 0, Name("Config")) == Some(0) && Resolve(w, 0, Name("Item")) == Some(1);
    assert MemberFits(w, rank, 0, members[0], 0) && MemberFits(w, rank, 0, members[1], 0);
    assert DeclFits(w, rank, w.sites[0], 0) && DeclFits(w, rank, w.sites[1], 0);
    WalkTerminates(w, rank, 0, steps, seen);
  }

  /** `type A = B['x']; interface B extends A { x: {} }`. */
  function IndexedBase(): World {
    World(map[0 := Site(0, Alias(Indexed(Reference(Name("B"), false, []), Some(Name("x"))))),
              1 := Site(0, Interface([Property(Name("x"), Some(Literal([])))], [Some(Name("A"))]))],
          map[(0, Name("A")) := 0, (0, Name("B")) := 1])
  }

  lemma IndexedBaseIsNotLayered(rank: map<DeclId, nat>)
    ensures !Layered(IndexedBase(), rank)
  {
    var w := IndexedBase();
    assert Resolve(w, 0, Name("A")) == Some(0) && Resolve(w, 0, Name("B")) == Some(1);
    assert BaseTarget(w, 0, w.sites[1].decl.bases[0]) == Some(AtDecl(0));
  }

  lemma IndexedBaseMoves(s: Name)
    ensures var w, b, steps := IndexedBase(), Reference(Name("B"), false, []), [Field(s)];
      var longer := [Field(Name("x"))] + steps;
      && MoveFrom(w, AtDecl(0), steps) == Go(AtType(0, Indexed(b, Some(Name("x")))), steps)
      && MoveFrom(w, AtType(0, Indexed(b, Some(Name("x")))), steps) == Go(AtType(0, b), longer)
      && MoveFrom(w, AtType(0, b), longer) == Go(AtDecl(1), longer)
      && MoveFrom(w, AtDecl(1), longer) == Go(AtType(0, Literal([])), steps)
      && MoveFrom(w, AtType(0, Literal([])), steps) == Answer(Missing)
  {
    var w := IndexedBase();
    assert Resolve(w, 0, Name("B")) == Some(1);
    assert ([Field(Name("x"))] + [Field(s)])[1..] == [Field(s)];
  }

  lemma ShortThroughGo(w: World, t: Target, steps: seq<Step>, l: nat)
    requires steps != [] && |steps| <= l
    requires var m := MoveFrom(w, t, steps); m.Answer? || (m.Go? && ShortPaths(w, m.target, m.steps, l))
    ensures ShortPaths(w, t, steps, l)
  {
    forall c | Position(w, t, steps, c).Some? ensures |Position(w, t, steps, c).value.1| <= l {
      if c == [] {
      } else {
        var m := MoveFrom(w, t, steps);
        assert PositionBeyond(w, m, steps, c).Some?;
        assert c == [c[0]] + c[1..];
        PositionThrough(w, t, steps, c[0], c[1..]);
      }
    }
  }

  /** No rank layers these declarations, and yet reference paths from the alias stay short. */
  lemma IndexedBaseAnswers(s: Name, seen: set<Key>)
    ensures ShortPaths(IndexedBase(), AtDecl(0), [Field(s)], 2)
    ensures Answers(IndexedBase(), AtDecl(0), [Field(s)], seen)
  {
    var w, b, steps := IndexedBase(), Reference(Name("B"), false, []), [Field(s)];
    var longer := [Field(Name("x"))] + steps;
    IndexedBaseMoves(s);
    ShortThroughGo(w, AtType(0, Literal([])), steps, 2);
    ShortThroughGo(w, AtDecl(1), longer, 2);
    ShortThroughGo(w, AtType(0, b), longer, 2);
    ShortThroughGo(w, AtType(0, Indexed(b, Some(Name("x")))), steps, 2);
    ShortThroughGo(w, AtDecl(0), steps, 2);
    ShortPathsAnswer(w, AtDecl(0), steps, seen, 2);
  }
}
