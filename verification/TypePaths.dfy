/**
 * Does a declared type have a member at a key path? The walk runs over a graph of declarations
 * that may be cyclic, guarded by a set of visited declarations shared between branches.
 */
module TypePaths {
  import opened Wrappers
  import opened CatalogNames

  /** One step of a key path: a named member, or an array-element hop. */
  datatype Step = Field(name: Name) | Element

  /** Definitely present, definitely absent, or behind something the walk cannot enumerate. */
  datatype Lookup = Found | Missing | Unknown

  datatype Type =
    | Literal(members: seq<Member>)
    | Parenthesized(inner: Type)
    | Intersection(parts: seq<Type>)
    | Union(parts: seq<Type>)
    | ArrayOf(element: Type)
    | Operator(operand: Type)
    | Indexed(base: Type, index: Option<Name>)
    | Reference(name: Name, qualified: bool, args: seq<Type>)
    | Other

  /** A property signature with its optional type, or any other member. */
  datatype Member = Property(name: Name, ty: Option<Type>) | NotAProperty

  /** `None` among the bases is a heritage expression that is not an identifier. */
  datatype Decl =
    | Interface(members: seq<Member>, bases: seq<Option<Name>>)
    | Alias(ty: Type)
    | Enum

  datatype Site = Site(file: File, decl: Decl)

  /** The declarations, and which of them a name used in a file denotes. */
  datatype World = World(sites: map<DeclId, Site>, resolve: map<(File, Name), DeclId>)

  function Resolve(w: World, file: File, name: Name): (r: Option<DeclId>)
    ensures r.Some? ==> r.value in w.sites
  {
    if (file, name) in w.resolve && w.resolve[(file, name)] in w.sites
    then Some(w.resolve[(file, name)]) else None
  }

  predicate IsPassthrough(name: Name) {
    name.text in {"Partial", "Required", "Readonly", "NonNullable"}
  }

  predicate IsArrayName(name: Name) {
    name.text in {"Array", "ReadonlyArray"}
  }

  /** The first property signature of that name, with its type annotation if it has one. */
  function FirstProperty(members: seq<Member>, name: Name): (r: Option<Option<Type>>)
    ensures r.Some? ==> Property(name, r.value) in members
    ensures r.None? ==> forall ty :: Property(name, ty) !in members
  {
    if members == [] then None
    else if members[0].Property? && members[0].name == name then Some(members[0].ty)
    else FirstProperty(members[1..], name)
  }

  ghost predicate NoneNamed(members: seq<Member>, name: Name) {
    forall m :: m in members ==> m.Property? ==> m.name != name
  }

  /** The members declare the name, for the first time, with that type. */
  ghost predicate DeclaresFirst(members: seq<Member>, name: Name, ty: Option<Type>) {
    exists i :: 0 <= i < |members| && members[i] == Property(name, ty) && NoneNamed(members[..i], name)
  }

  lemma DeclaresBehind(members: seq<Member>, name: Name, ty: Option<Type>)
    requires members != []
    ensures DeclaresFirst(members, name, ty) <==>
      if members[0].Property? && members[0].name == name then members[0].ty == ty
      else DeclaresFirst(members[1..], name, ty)
  {
    var later := members[1..];
    forall i | 0 <= i < |later| ensures members[..i + 1] == [members[0]] + later[..i] {
    }
    if members[0].Property? && members[0].name == name {
      assert members[..0] == [];
      assert forall i :: 0 < i < |members| ==> members[0] in members[..i];
    } else {
      if DeclaresFirst(later, name, ty) {
        var i :| 0 <= i < |later| && later[i] == Property(name, ty) && NoneNamed(later[..i], name);
        assert members[i + 1] == Property(name, ty) && NoneNamed(members[..i + 1], name);
      }
      if DeclaresFirst(members, name, ty) {
        var i :| 0 <= i < |members| && members[i] == Property(name, ty) && NoneNamed(members[..i], name);
        assert later[i - 1] == Property(name, ty) && members[..i] == [members[0]] + later[..i - 1];
      }
    }
  }

  lemma {:induction false} FirstPropertyIsFirst(members: seq<Member>, name: Name)
    ensures forall ty :: FirstProperty(members, name) == Some(ty) <==> DeclaresFirst(members, name, ty)
  {
    if members == [] {
    } else {
      FirstPropertyIsFirst(members[1..], name);
      forall ty ensures FirstProperty(members, name) == Some(ty) <==> DeclaresFirst(members, name, ty) {
        DeclaresBehind(members, name, ty);
      }
    }
  }

  /** Where a walk can stand. */
  datatype Target = AtDecl(id: DeclId) | AtType(file: File, ty: Type)

  // ---------------------------------------------------------------- what the verdicts mean

  ghost predicate LacksProperty(members: seq<Member>, steps: seq<Step>)
    requires steps != []
  {
    steps[0].Field? && FirstProperty(members, steps[0].name).None?
  }

  /** The declaration a heritage clause names, when it can be followed. */
  function BaseTarget(w: World, file: File, base: Option<Name>): Option<Target> {
    if base.None? then None
    else
      var id := Resolve(w, file, base.value);
      if id.None? then None else Some(AtDecl(id.value))
  }

  /** A derivation, of height at most `h`, that the path leads to declared members. */
  ghost predicate Has(h: nat, w: World, t: Target, steps: seq<Step>)
    decreases h, 0
  {
    steps == [] || (h > 0 &&
      match t
      case AtDecl(id) => id in w.sites && (
        match w.sites[id].decl
        case Interface(members, bases) =>
          MembersHave(h - 1, w, w.sites[id].file, members, steps) ||
          (LacksProperty(members, steps) &&
            (exists i :: 0 <= i < |bases| && BaseTarget(w, w.sites[id].file, bases[i]).Some? &&
              Has(h - 1, w, BaseTarget(w, w.sites[id].file, bases[i]).value, steps)))
        case Alias(ty) => Has(h - 1, w, AtType(w.sites[id].file, ty), steps)
        case Enum => false)
      case AtType(file, ty) => (
        match ty
        case Literal(members) => MembersHave(h - 1, w, file, members, steps)
        case Parenthesized(inner) => Has(h - 1, w, AtType(file, inner), steps)
        case Intersection(parts) => exists i :: 0 <= i < |parts| && Has(h - 1, w, AtType(file, parts[i]), steps)
        case Union(parts) => forall i :: 0 <= i < |parts| ==> Has(h - 1, w, AtType(file, parts[i]), steps)
        case ArrayOf(element) => steps[0].Element? && Has(h - 1, w, AtType(file, element), steps[1..])
        case Operator(operand) => Has(h - 1, w, AtType(file, operand), steps)
        case Indexed(base, index) => index.Some? && Has(h - 1, w, AtType(file, base), [Field(index.value)] + steps)
        case Reference(name, qualified, args) =>
          if IsPassthrough(name) && args != [] then Has(h - 1, w, AtType(file, args[0]), steps)
          else if IsArrayName(name) && args != [] then
            steps[0].Element? && Has(h - 1, w, AtType(file, args[0]), steps[1..])
          else !qualified && Resolve(w, file, name).Some? && Has(h - 1, w, AtDecl(Resolve(w, file, name).value), steps)
        case Other => false))
  }

  ghost predicate MembersHave(h: nat, w: World, file: File, members: seq<Member>, steps: seq<Step>)
    requires steps != []
    decreases h, 1
  {
    steps[0].Field? && FirstProperty(members, steps[0].name).Some? &&
    var ty := FirstProperty(members, steps[0].name).value;
    |steps| == 1 || (ty.Some? && Has(h, w, AtType(file, ty.value), steps[1..]))
  }

  /** A derivation, of height at most `h`, that the path leaves the declared members. */
  ghost predicate Lacks(h: nat, w: World, t: Target, steps: seq<Step>)
    decreases h, 0
  {
    steps != [] && h > 0 &&
      match t
      case AtDecl(id) => id in w.sites && (
        match w.sites[id].decl
        case Interface(members, bases) =>
          MembersLack(h - 1, w, w.sites[id].file, members, steps) ||
          (LacksProperty(members, steps) &&
            (forall i :: 0 <= i < |bases| ==>
              && BaseTarget(w, w.sites[id].file, bases[i]).Some?
              && Lacks(h - 1, w, BaseTarget(w, w.sites[id].file, bases[i]).value, steps)))
        case Alias(ty) => Lacks(h - 1, w, AtType(w.sites[id].file, ty), steps)
        case Enum => false)
      case AtType(file, ty) => (
        match ty
        case Literal(members) => MembersLack(h - 1, w, file, members, steps) || LacksProperty(members, steps)
        case Parenthesized(inner) => Lacks(h - 1, w, AtType(file, inner), steps)
        case Intersection(parts) => forall i :: 0 <= i < |parts| ==> Lacks(h - 1, w, AtType(file, parts[i]), steps)
        case Union(parts) =>
          parts != [] && forall i :: 0 <= i < |parts| ==> Lacks(h - 1, w, AtType(file, parts[i]), steps)
        case ArrayOf(element) => steps[0].Element? && Lacks(h - 1, w, AtType(file, element), steps[1..])
        case Operator(operand) => Lacks(h - 1, w, AtType(file, operand), steps)
        case Indexed(base, index) => index.Some? && Lacks(h - 1, w, AtType(file, base), [Field(index.value)] + steps)
        case Reference(name, qualified, args) =>
          if IsPassthrough(name) && args != [] then Lacks(h - 1, w, AtType(file, args[0]), steps)
          else if IsArrayName(name) && args != [] then
            steps[0].Element? && Lacks(h - 1, w, AtType(file, args[0]), steps[1..])
          else
            && !qualified && Resolve(w, file, name).Some?
            && Lacks(h - 1, w, AtDecl(Resolve(w, file, name).value), steps)
        case Other => false)
  }

  ghost predicate MembersLack(h: nat, w: World, file: File, members: seq<Member>, steps: seq<Step>)
    requires steps != []
    decreases h, 1
  {
    steps[0].Field? && FirstProperty(members, steps[0].name).Some? &&
    var ty := FirstProperty(members, steps[0].name).value;
    |steps| > 1 && ty.Some? && Lacks(h, w, AtType(file, ty.value), steps[1..])
  }

  // ---------------------------------------------------------------- the walk

  /** What the walk does next: answer, move on, or consult several targets with the same steps. */
  datatype Move =
    | Answer(verdict: Lookup)
    | Go(target: Target, steps: seq<Step>)
    | AnyOf(targets: seq<Option<Target>>)
    | EachOf(targets: seq<Option<Target>>)

  function Bases(w: World, file: File, bases: seq<Option<Name>>): seq<Option<Target>> {
    seq(|bases|, i requires 0 <= i < |bases| => BaseTarget(w, file, bases[i]))
  }

  function Parts(file: File, parts: seq<Type>): seq<Option<Target>> {
    seq(|parts|, i requires 0 <= i < |parts| => Some(AtType(file, parts[i])))
  }

  /** Into the first property of the wanted name; `None` when there is none among these members. */
  function IntoMembers(file: File, members: seq<Member>, steps: seq<Step>): Option<Move>
    requires steps != [] && steps[0].Field?
  {
    var property := FirstProperty(members, steps[0].name);
    if property.None? then None
    else if |steps| == 1 then Some(Answer(Found))
    else if property.value.None? then Some(Answer(Unknown))
    else Some(Go(AtType(file, property.value.value), steps[1..]))
  }

  function MoveFrom(w: World, t: Target, steps: seq<Step>): Move
    requires steps != []
  {
    match t
    case AtDecl(id) =>
      if id !in w.sites then Answer(Unknown) else (
        match w.sites[id].decl
        case Interface(members, bases) =>
          if steps[0].Element? then Answer(Unknown)
          else
            var direct := IntoMembers(w.sites[id].file, members, steps);
            if direct.Some? then direct.value
            else if bases == [] then Answer(Missing)
            else AnyOf(Bases(w, w.sites[id].file, bases))
        case Alias(ty) => Go(AtType(w.sites[id].file, ty), steps)
        case Enum => Answer(Unknown))
    case AtType(file, ty) =>
      match ty
      case Literal(members) =>
        if steps[0].Element? then Answer(Unknown)
        else
          var direct := IntoMembers(file, members, steps);
          if direct.Some? then direct.value else Answer(Missing)
      case Parenthesized(inner) => Go(AtType(file, inner), steps)
      case Intersection(parts) => AnyOf(Parts(file, parts))
      case Union(parts) => EachOf(Parts(file, parts))
      case ArrayOf(element) =>
        if steps[0].Element? then Go(AtType(file, element), steps[1..]) else Answer(Unknown)
      case Operator(operand) => Go(AtType(file, operand), steps)
      case Indexed(base, index) =>
        if index.Some? then Go(AtType(file, base), [Field(index.value)] + steps) else Answer(Unknown)
      case Reference(name, qualified, args) =>
        if IsPassthrough(name) && args != [] then Go(AtType(file, args[0]), steps)
        else if IsArrayName(name) && args != [] then
          if steps[0].Element? then Go(AtType(file, args[0]), steps[1..]) else Answer(Unknown)
        else if qualified then Answer(Unknown)
        else
          var id := Resolve(w, file, name);
          if id.Some? then Go(AtDecl(id.value), steps) else Answer(Unknown)
      case Other => Answer(Unknown)
  }

  /** Any found wins, else any unknown taints, else missing. */
  function Combine(verdicts: seq<Lookup>): Lookup {
    if Found in verdicts then Found else if Unknown in verdicts then Unknown else Missing
  }

  /** Presence on a union is definite only when every branch agrees. */
  function Agree(verdicts: seq<Lookup>): Lookup {
    if forall v :: v in verdicts ==> v == Found then Found
    else if forall v :: v in verdicts ==> v == Missing then Missing
    else Unknown
  }

  /** The targets a move leads to. */
  function Successors(m: Move): seq<Option<Target>> {
    match m
    case Answer(_) => []
    case Go(target, _) => [Some(target)]
    case AnyOf(targets) => targets
    case EachOf(targets) => targets
  }

  /** The path a move leaves for its targets. */
  function StepsAfter(m: Move, steps: seq<Step>): seq<Step> {
    if m.Go? then m.steps else steps
  }

  /** A visited declaration together with the number of steps that were left. */
  type Key = (DeclId, nat)

  /** Only interfaces and aliases are guarded; structural descent is finite on its own. */
  predicate Guarded(w: World, t: Target) {
    t.AtDecl? && t.id in w.sites && !w.sites[t.id].decl.Enum?
  }

  /** `Overflow` is the call stack running out; otherwise a value and the visited set so far. */
  datatype Walked<T> = Overflow | Done(value: T, seen: set<Key>)

  /** The declaration was visited before with as many steps left. */
  predicate Met(w: World, t: Target, steps: seq<Step>, seen: set<Key>) {
    Guarded(w, t) && (t.id, |steps|) in seen
  }

  function Mark(w: World, t: Target, steps: seq<Step>, seen: set<Key>): set<Key> {
    if Guarded(w, t) then seen + {(t.id, |steps|)} else seen
  }

  /** The walk with a stack of `fuel` frames. The visited set is threaded through all branches. */
  function Walk(fuel: nat, w: World, t: Target, steps: seq<Step>, seen: set<Key>): (r: Walked<Lookup>)
    ensures r.Done? ==> seen <= r.seen
    decreases fuel, 0
  {
    if fuel == 0 then Overflow
    else if steps == [] then Done(Found, seen)
    else if Met(w, t, steps, seen) then Done(Unknown, seen)
    else Follow(fuel - 1, w, MoveFrom(w, t, steps), steps, Mark(w, t, steps, seen))
  }

  function Follow(fuel: nat, w: World, m: Move, steps: seq<Step>, seen: set<Key>): (r: Walked<Lookup>)
    ensures r.Done? ==> seen <= r.seen
    decreases fuel, |Successors(m)| + 2
  {
    match m
    case Answer(verdict) => Done(verdict, seen)
    case Go(target, rest) => Walk(fuel, w, target, rest, seen)
    case AnyOf(targets) =>
      (match WalkAll(fuel, w, targets, steps, seen)
       case Overflow => Overflow
       case Done(verdicts, seen') => Done(Combine(verdicts), seen'))
    case EachOf(targets) =>
      (match WalkAll(fuel, w, targets, steps, seen)
       case Overflow => Overflow
       case Done(verdicts, seen') => Done(Agree(verdicts), seen'))
  }

  /** Every target in turn, without short-circuiting. */
  function WalkAll(fuel: nat, w: World, targets: seq<Option<Target>>, steps: seq<Step>, seen: set<Key>)
    : (r: Walked<seq<Lookup>>)
    ensures r.Done? ==> seen <= r.seen && |r.value| == |targets|
    decreases fuel, |targets| + 1
  {
    if targets == [] then Done([], seen)
    else
      var front, last := targets[..|targets| - 1], targets[|targets| - 1];
      match WalkAll(fuel, w, front, steps, seen)
      case Overflow => Overflow
      case Done(verdicts, seen') =>
        if last.None? then Done(verdicts + [Unknown], seen')
        else
          match Walk(fuel, w, last.value, steps, seen')
          case Overflow => Overflow
          case Done(verdict, seen'') => Done(verdicts + [verdict], seen'')
  }

  // ---------------------------------------------------------------- derivations along moves

  /** What a move makes of derivations, of height at most `h`, for the targets it leads to. */
  ghost predicate HasBeyond(h: nat, w: World, m: Move, steps: seq<Step>) {
    match m
    case Answer(verdict) => verdict == Found
    case Go(target, rest) => Has(h, w, target, rest)
    case AnyOf(targets) => exists i :: 0 <= i < |targets| && targets[i].Some? && Has(h, w, targets[i].value, steps)
    case EachOf(targets) => forall i :: 0 <= i < |targets| ==> targets[i].Some? && Has(h, w, targets[i].value, steps)
  }

  ghost predicate AllLack(h: nat, w: World, targets: seq<Option<Target>>, steps: seq<Step>) {
    forall i :: 0 <= i < |targets| ==> targets[i].Some? && Lacks(h, w, targets[i].value, steps)
  }

  ghost predicate LacksBeyond(h: nat, w: World, m: Move, steps: seq<Step>) {
    match m
    case Answer(verdict) => verdict == Missing
    case Go(target, rest) => Lacks(h, w, target, rest)
    case AnyOf(targets) => AllLack(h, w, targets, steps)
    case EachOf(targets) => targets != [] && AllLack(h, w, targets, steps)
  }

  lemma HasInType(h: nat, w: World, file: File, ty: Type, steps: seq<Step>)
    requires steps != []
    ensures Has(h + 1, w, AtType(file, ty), steps) <==> HasBeyond(h, w, MoveFrom(w, AtType(file, ty), steps), steps)
  {
    if ty.Intersection? || ty.Union? {
      assert forall i :: 0 <= i < |ty.parts| ==> Parts(file, ty.parts)[i] == Some(AtType(file, ty.parts[i]));
    }
  }

  lemma HasInDecl(h: nat, w: World, id: DeclId, steps: seq<Step>)
    requires steps != []
    ensures Has(h + 1, w, AtDecl(id), steps) <==> HasBeyond(h, w, MoveFrom(w, AtDecl(id), steps), steps)
  {
    if id in w.sites && w.sites[id].decl.Interface? {
      var bases := w.sites[id].decl.bases;
      assert forall i :: 0 <= i < |bases| ==>
        Bases(w, w.sites[id].file, bases)[i] == BaseTarget(w, w.sites[id].file, bases[i]);
    }
  }

  lemma LacksInType(h: nat, w: World, file: File, ty: Type, steps: seq<Step>)
    requires steps != []
    ensures Lacks(h + 1, w, AtType(file, ty), steps) <==> LacksBeyond(h, w, MoveFrom(w, AtType(file, ty), steps), steps)
  {
    if ty.Intersection? || ty.Union? {
      assert forall i :: 0 <= i < |ty.parts| ==> Parts(file, ty.parts)[i] == Some(AtType(file, ty.parts[i]));
    }
  }

  lemma LacksInDecl(h: nat, w: World, id: DeclId, steps: seq<Step>)
    requires steps != []
    ensures Lacks(h + 1, w, AtDecl(id), steps) <==> LacksBeyond(h, w, MoveFrom(w, AtDecl(id), steps), steps)
  {
    if id in w.sites && w.sites[id].decl.Interface? {
      var bases := w.sites[id].decl.bases;
      assert forall i :: 0 <= i < |bases| ==>
        Bases(w, w.sites[id].file, bases)[i] == BaseTarget(w, w.sites[id].file, bases[i]);
    }
  }

  /** A derivation begins with the move that the walk makes. */
  lemma DerivationsMove(h: nat, w: World, t: Target, steps: seq<Step>)
    requires steps != []
    ensures Has(h + 1, w, t, steps) <==> HasBeyond(h, w, MoveFrom(w, t, steps), steps)
    ensures Lacks(h + 1, w, t, steps) <==> LacksBeyond(h, w, MoveFrom(w, t, steps), steps)
  {
    match t
    case AtDecl(id) =>
      HasInDecl(h, w, id, steps);
      LacksInDecl(h, w, id, steps);
    case AtType(file, ty) =>
      HasInType(h, w, file, ty, steps);
      LacksInType(h, w, file, ty, steps);
  }

  /**
   * The four transparent utility wrappers stand for their first argument and the two array names for
   * an array of theirs; any other unqualified name is looked up.
   */
  lemma WrappersAreTransparent(h: nat, w: World, file: File, name: string, arg: Type, steps: seq<Step>)
    requires steps != []
    ensures var t := AtType(file, Reference(Name(name), false, [arg]));
      if name == "Partial" || name == "Required" || name == "Readonly" || name == "NonNullable" then
        Has(h + 1, w, t, steps) <==> Has(h, w, AtType(file, arg), steps)
      else if name == "Array" || name == "ReadonlyArray" then
        Has(h + 1, w, t, steps) <==> Has(h + 1, w, AtType(file, ArrayOf(arg)), steps)
      else
        Has(h + 1, w, t, steps) <==>
          Resolve(w, file, Name(name)).Some? && Has(h, w, AtDecl(Resolve(w, file, Name(name)).value), steps)
  {
  }

  /** No path both exists and is absent, whatever the two derivations look like. */
  lemma {:induction false} VerdictsExclude(h: nat, k: nat, w: World, t: Target, steps: seq<Step>)
    requires Has(h, w, t, steps) && Lacks(k, w, t, steps)
    ensures false
    decreases h, 0
  {
    DerivationsMove(h - 1, w, t, steps);
    DerivationsMove(k - 1, w, t, steps);
    MovesExclude(h - 1, k - 1, w, MoveFrom(w, t, steps), steps);
  }

  lemma {:induction false} MovesExclude(h: nat, k: nat, w: World, m: Move, steps: seq<Step>)
    requires HasBeyond(h, w, m, steps) && LacksBeyond(k, w, m, steps)
    ensures false
    decreases h, 1
  {
    match m
    case Go(target, rest) =>
      VerdictsExclude(h, k, w, target, rest);
    case AnyOf(targets) =>
      var i :| 0 <= i < |targets| && targets[i].Some? && Has(h, w, targets[i].value, steps);
      VerdictsExclude(h, k, w, targets[i].value, steps);
    case EachOf(targets) =>
      VerdictsExclude(h, k, w, targets[0].value, steps);
  }

  // ---------------------------------------------------------------- soundness

  /** The verdict of every consulted target is backed by a derivation. */
  ghost predicate Backed(h: nat, w: World, t: Option<Target>, steps: seq<Step>, verdict: Lookup) {
    && (verdict == Found ==> t.Some? && Has(h, w, t.value, steps))
    && (verdict == Missing ==> t.Some? && Lacks(h, w, t.value, steps))
  }

  ghost predicate BackedBeyond(h: nat, w: World, m: Move, steps: seq<Step>, verdict: Lookup) {
    && (verdict == Found ==> HasBeyond(h, w, m, steps))
    && (verdict == Missing ==> LacksBeyond(h, w, m, steps))
  }

  lemma CombineIsBacked(h: nat, w: World, targets: seq<Option<Target>>, steps: seq<Step>, verdicts: seq<Lookup>)
    requires |verdicts| == |targets|
    requires forall i :: 0 <= i < |targets| ==> Backed(h, w, targets[i], steps, verdicts[i])
    ensures BackedBeyond(h, w, AnyOf(targets), steps, Combine(verdicts))
  {
    match Combine(verdicts)
    case Found =>
      var i :| 0 <= i < |verdicts| && verdicts[i] == Found;
      assert Has(h, w, targets[i].value, steps);
    case Missing =>
      forall i | 0 <= i < |targets| ensures targets[i].Some? && Lacks(h, w, targets[i].value, steps) {
        assert verdicts[i] in verdicts && verdicts[i] == Missing;
      }
    case Unknown =>
  }

  lemma AgreementIsBacked(h: nat, w: World, targets: seq<Option<Target>>, steps: seq<Step>, verdicts: seq<Lookup>)
    requires |verdicts| == |targets|
    requires forall i :: 0 <= i < |targets| ==> Backed(h, w, targets[i], steps, verdicts[i])
    ensures BackedBeyond(h, w, EachOf(targets), steps, Agree(verdicts))
  {
    forall i | 0 <= i < |targets| && Agree(verdicts) != Unknown ensures verdicts[i] == Agree(verdicts) {
      assert verdicts[i] in verdicts;
    }
  }

  lemma {:induction false} WalkIsSound(fuel: nat, w: World, t: Target, steps: seq<Step>, seen: set<Key>)
    ensures var r := Walk(fuel, w, t, steps, seen); r.Done? ==> Backed(fuel, w, Some(t), steps, r.value)
    decreases fuel, 0
  {
    if fuel == 0 || steps == [] || Met(w, t, steps, seen) {
    } else {
      FollowIsSound(fuel - 1, w, MoveFrom(w, t, steps), steps, Mark(w, t, steps, seen));
      DerivationsMove(fuel - 1, w, t, steps);
    }
  }

  lemma {:induction false} FollowIsSound(fuel: nat, w: World, m: Move, steps: seq<Step>, seen: set<Key>)
    ensures var r := Follow(fuel, w, m, steps, seen); r.Done? ==> BackedBeyond(fuel, w, m, steps, r.value)
    decreases fuel, |Successors(m)| + 2
  {
    match m
    case Answer(_) =>
    case Go(target, rest) =>
      WalkIsSound(fuel, w, target, rest, seen);
    case AnyOf(targets) =>
      WalkAllIsSound(fuel, w, targets, steps, seen);
      var r := WalkAll(fuel, w, targets, steps, seen);
      if r.Done? {
        CombineIsBacked(fuel, w, targets, steps, r.value);
      }
    case EachOf(targets) =>
      WalkAllIsSound(fuel, w, targets, steps, seen);
      var r := WalkAll(fuel, w, targets, steps, seen);
      if r.Done? {
        AgreementIsBacked(fuel, w, targets, steps, r.value);
      }
  }

  lemma {:induction false} WalkAllIsSound(fuel: nat, w: World, targets: seq<Option<Target>>, steps: seq<Step>,
          seen: set<Key>)
    ensures var r := WalkAll(fuel, w, targets, steps, seen);
      r.Done? ==> forall i :: 0 <= i < |targets| ==> Backed(fuel, w, targets[i], steps, r.value[i])
    decreases fuel, |targets| + 1
  {
    if targets == [] {
    } else {
      var front, last := targets[..|targets| - 1], targets[|targets| - 1];
      WalkAllIsSound(fuel, w, front, steps, seen);
      var before := WalkAll(fuel, w, front, steps, seen);
      if before.Done? && last.Some? {
        WalkIsSound(fuel, w, last.value, steps, before.seen);
      }
    }
  }

  /** Whatever each walk had already visited, two walks never give opposite definite verdicts. */
  lemma WalksNeverContradict(w: World, t: Target, steps: seq<Step>,
                             fuel1: nat, seen1: set<Key>, fuel2: nat, seen2: set<Key>)
    ensures var r1, r2 := Walk(fuel1, w, t, steps, seen1), Walk(fuel2, w, t, steps, seen2);
      !(r1.Done? && r1.value == Found && r2.Done? && r2.value == Missing)
  {
    WalkIsSound(fuel1, w, t, steps, seen1);
    WalkIsSound(fuel2, w, t, steps, seen2);
    if Has(fuel1, w, t, steps) && Lacks(fuel2, w, t, steps) {
      VerdictsExclude(fuel1, fuel2, w, t, steps);
    }
  }
}
