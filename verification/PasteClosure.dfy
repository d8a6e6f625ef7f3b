/** The worklist that pastes a config type together with every declaration it references. */
module PasteClosure {
  import opened Wrappers
  import opened CatalogNames

  /** A source pointer: the identity of a declaration. */
  datatype Pointer = Pointer(file: File, line: nat)

  /** A declaration, the file it is in, and the type names it references. */
  datatype Decl = Decl(key: Pointer, file: File, names: seq<Name>)

  /** What an import brings in: the exported name and the module. */
  datatype TypeRef = TypeRef(imported: Name, specifier: string)

  datatype Resolution = Unresolved | Local(decl: Decl) | External(ref: TypeRef)

  /** A type name to be resolved from a file. */
  datatype Request = Request(name: Name, from: File)

  /** Name resolution of one package; a request it does not list is unresolved. */
  datatype World = World(resolve: map<Request, Resolution>, globals: set<Name>)

  datatype Violation =
    | NotDeclared(request: Request)
    | ConfigTypeImported(name: Name)
    | LocalThenImport(name: Name)
    | TwoImports(name: Name)
    | TwoDeclarations(name: Name)
    | ImportThenLocal(name: Name)

  datatype Paste = Paste(name: Name, decl: Decl)

  datatype Closure = Closure(pastes: seq<Paste>, refs: map<Name, TypeRef>, violations: seq<Violation>)

  function Resolve(w: World, r: Request): Resolution {
    if r in w.resolve then w.resolve[r] else Unresolved
  }

  // ---------------------------------------------------------------- reachability

  /** Resolving `a` leads to a declaration that references `b`. */
  ghost predicate Refers(w: World, a: Request, b: Request) {
    && Resolve(w, a).Local?
    && b.from == Resolve(w, a).decl.file
    && b.name in Resolve(w, a).decl.names
    && b.name !in w.globals
  }

  ghost predicate Chain(w: World, c: seq<Request>) {
    c != [] && forall i, j :: 0 <= i < j < |c| && j == i + 1 ==> Refers(w, c[i], c[j])
  }

  ghost predicate Reachable(w: World, root: Request, r: Request) {
    exists c :: Chain(w, c) && c[0] == root && c[|c| - 1] == r
  }

  lemma RootIsReachable(w: World, root: Request)
    ensures Reachable(w, root, root)
  {
    assert Chain(w, [root]);
  }

  lemma ReferredIsReachable(w: World, root: Request, a: Request, b: Request)
    requires Reachable(w, root, a) && Refers(w, a, b)
    ensures Reachable(w, root, b)
  {
    var c :| Chain(w, c) && c[0] == root && c[|c| - 1] == a;
    assert Chain(w, c + [b]);
  }

  // ---------------------------------------------------------------- when a fence is unambiguous

  /** Two resolutions a bare name may have at once. */
  predicate SameIdentity(x: Resolution, y: Resolution) {
    match (x, y)
    case (Local(d), Local(e)) => d.key == e.key
    case (External(r), External(s)) => r == s
    case _ => false
  }

  /**
   * The config type is declared in its own package, every reachable name resolves, and a name
   * reached from two files means the same thing in both.
   */
  ghost predicate Unambiguous(w: World, root: Request) {
    && (forall r :: Reachable(w, root, r) ==> !Resolve(w, r).Unresolved?)
    && (forall r :: Reachable(w, root, r) && r.name == root.name ==> !Resolve(w, r).External?)
    && (forall r, q :: Reachable(w, root, r) && Reachable(w, root, q) && r.name == q.name ==>
      SameIdentity(Resolve(w, r), Resolve(w, q)))
  }

  /** A pointer identifies one declaration of a name. */
  ghost predicate PointersIdentify(w: World) {
    forall r, q :: r in w.resolve && q in w.resolve && r.name == q.name
      && w.resolve[r].Local? && w.resolve[q].Local? && w.resolve[r].decl.key == w.resolve[q].decl.key
      ==> w.resolve[r] == w.resolve[q]
  }

  // ---------------------------------------------------------------- the worklist

  /** The request is accounted for by what has been pasted or imported. */
  ghost predicate Settled(w: World, pasted: map<Name, Pointer>, refs: map<Name, TypeRef>, r: Request) {
    match Resolve(w, r)
    case Unresolved => false
    case Local(decl) => r.name in pasted && pasted[r.name] == decl.key
    case External(ref) => r.name in refs && refs[r.name] == ref
  }

  /** Everything a pasted declaration references is settled. */
  ghost predicate Covered(w: World, c: Closure, pasted: map<Name, Pointer>) {
    forall p, n :: p in c.pastes && n in p.decl.names && n !in w.globals ==>
      Settled(w, pasted, c.refs, Request(n, p.decl.file))
  }

  ghost predicate HasPaste(pastes: seq<Paste>, n: Name) {
    exists p :: p in pastes && p.name == n
  }

  /** `pasted` indexes the pastes by name: one paste a name, and no name is also imported. */
  ghost predicate Indexed(c: Closure, pasted: map<Name, Pointer>) {
    && (forall p :: p in c.pastes ==> p.name in pasted && pasted[p.name] == p.decl.key)
    && (forall n :: n in pasted ==> HasPaste(c.pastes, n))
    && (forall i, j :: 0 <= i < j < |c.pastes| ==> c.pastes[i].name != c.pastes[j].name)
    && pasted.Keys !! c.refs.Keys
  }

  /** Some reachable request for the name resolves so. */
  ghost predicate Reached(w: World, root: Request, n: Name, resolution: Resolution) {
    exists r :: Reachable(w, root, r) && r.name == n && Resolve(w, r) == resolution
  }

  /** Everything pasted or imported was reached from the config type. */
  ghost predicate Grounded(w: World, root: Request, c: Closure) {
    && (forall p :: p in c.pastes ==> Reached(w, root, p.name, Local(p.decl)))
    && (forall n :: n in c.refs ==> Reached(w, root, n, External(c.refs[n])))
  }

  ghost function LocalNames(w: World): set<Name> {
    set r | r in w.resolve && w.resolve[r].Local? :: r.name
  }

  // ---------------------------------------------------------------- violations

  /** The violation, if any, that a request meets given what was pasted and imported before it. */
  function Complaint(w: World, root: Request, pasted: map<Name, Pointer>, refs: map<Name, TypeRef>,
          r: Request): Option<Violation>
  {
    match Resolve(w, r)
    case Unresolved => Some(NotDeclared(r))
    case External(ref) =>
      if r.name == root.name then Some(ConfigTypeImported(r.name))
      else if r.name in pasted then Some(LocalThenImport(r.name))
      else if r.name in refs && refs[r.name] != ref then Some(TwoImports(r.name))
      else None
    case Local(decl) =>
      if r.name in pasted then
        if pasted[r.name] == decl.key then None else Some(TwoDeclarations(r.name))
      else if r.name in refs then Some(ImportThenLocal(r.name))
      else None
  }

  /** Two reachable requests for one name that mean different things. */
  ghost predicate Clash(w: World, root: Request, n: Name, x: Resolution, y: Resolution) {
    Reached(w, root, n, x) && Reached(w, root, n, y) && !SameIdentity(x, y)
  }

  /** What each violation claims about the declarations, whenever it was recorded. */
  ghost predicate IsTrue(w: World, root: Request, v: Violation) {
    match v
    case NotDeclared(r) => Reachable(w, root, r) && Resolve(w, r).Unresolved?
    case ConfigTypeImported(n) => n == root.name && exists ref :: Reached(w, root, n, External(ref))
    case LocalThenImport(n) => exists d, ref :: Clash(w, root, n, Local(d), External(ref))
    case ImportThenLocal(n) => exists d, ref :: Clash(w, root, n, Local(d), External(ref))
    case TwoImports(n) => exists q, ref :: Clash(w, root, n, External(q), External(ref))
    case TwoDeclarations(n) => exists d, e :: Clash(w, root, n, Local(d), Local(e))
  }

  lemma ClashRefutes(w: World, root: Request, n: Name, x: Resolution, y: Resolution)
    requires Clash(w, root, n, x, y)
    ensures !Unambiguous(w, root)
  {
    var r :| Reachable(w, root, r) && r.name == n && Resolve(w, r) == x;
    var q :| Reachable(w, root, q) && q.name == n && Resolve(w, q) == y;
  }

  /** Every violation rules out an unambiguous rendering. */
  lemma ViolationRefutes(w: World, root: Request, v: Violation)
    requires IsTrue(w, root, v)
    ensures !Unambiguous(w, root)
  {
    match v
    case NotDeclared(r) =>
    case ConfigTypeImported(n) =>
      var ref :| Reached(w, root, n, External(ref));
    case LocalThenImport(n) =>
      var d, ref :| Clash(w, root, n, Local(d), External(ref));
      ClashRefutes(w, root, n, Local(d), External(ref));
    case ImportThenLocal(n) =>
      var d, ref :| Clash(w, root, n, Local(d), External(ref));
      ClashRefutes(w, root, n, Local(d), External(ref));
    case TwoImports(n) =>
      var q, ref :| Clash(w, root, n, External(q), External(ref));
      ClashRefutes(w, root, n, External(q), External(ref));
    case TwoDeclarations(n) =>
      var d, e :| Clash(w, root, n, Local(d), Local(e));
      ClashRefutes(w, root, n, Local(d), Local(e));
  }

  /** A complaint about a reachable request is true. */
  lemma ComplaintIsTrue(w: World, root: Request, c: Closure, pasted: map<Name, Pointer>, r: Request)
    requires Reachable(w, root, r) && Indexed(c, pasted) && Grounded(w, root, c)
    requires Complaint(w, root, pasted, c.refs, r).Some?
    ensures IsTrue(w, root, Complaint(w, root, pasted, c.refs, r).value)
  {
    var here := Resolve(w, r);
    assert Reached(w, root, r.name, here);
    if r.name in pasted {
      assert HasPaste(c.pastes, r.name);
      var p :| p in c.pastes && p.name == r.name;
      assert Reached(w, root, r.name, Local(p.decl));
      assert here.External? ==> Clash(w, root, r.name, Local(p.decl), here);
      assert here.Local? ==> here.decl.key != p.decl.key && Clash(w, root, r.name, Local(p.decl), here);
    } else if r.name in c.refs {
      var before := External(c.refs[r.name]);
      assert Reached(w, root, r.name, before);
      assert here.Local? ==> Clash(w, root, r.name, here, before);
      assert here.External? && r.name != root.name ==> Clash(w, root, r.name, before, here);
    }
  }

  /** The paste of a settled declaration is that declaration. */
  lemma PasteOf(w: World, root: Request, c: Closure, pasted: map<Name, Pointer>, a: Request) returns (p: Paste)
    requires PointersIdentify(w)
    requires Indexed(c, pasted) && Grounded(w, root, c)
    requires Settled(w, pasted, c.refs, a) && Resolve(w, a).Local?
    ensures p in c.pastes && Resolve(w, a) == Local(p.decl)
  {
    assert HasPaste(c.pastes, a.name);
    p :| p in c.pastes && p.name == a.name;
    assert Reached(w, root, p.name, Local(p.decl));
    var q :| Reachable(w, root, q) && q.name == p.name && Resolve(w, q) == Local(p.decl);
    assert w.resolve[q] == w.resolve[a];
  }

  lemma ReferredIsSettled(w: World, root: Request, c: Closure, pasted: map<Name, Pointer>, a: Request, b: Request)
    requires PointersIdentify(w)
    requires Covered(w, c, pasted) && Indexed(c, pasted) && Grounded(w, root, c)
    requires Settled(w, pasted, c.refs, a) && Refers(w, a, b)
    ensures Settled(w, pasted, c.refs, b)
  {
    var p := PasteOf(w, root, c, pasted, a);
    assert b == Request(b.name, p.decl.file);
  }

  /** With nothing left in the queue and no violation, every reachable request is settled. */
  lemma {:induction false} ReachableIsSettled(w: World, root: Request, c: Closure, pasted: map<Name, Pointer>,
          chain: seq<Request>)
    requires PointersIdentify(w)
    requires Covered(w, c, pasted) && Indexed(c, pasted) && Grounded(w, root, c)
    requires Settled(w, pasted, c.refs, root)
    requires Chain(w, chain) && chain[0] == root
    ensures Settled(w, pasted, c.refs, chain[|chain| - 1])
    decreases |chain|
  {
    if |chain| <= 1 {
    } else {
      var front := chain[..|chain| - 1];
      assert Chain(w, front);
      ReachableIsSettled(w, root, c, pasted, front);
      assert Refers(w, front[|front| - 1], chain[|chain| - 1]);
      ReferredIsSettled(w, root, c, pasted, front[|front| - 1], chain[|chain| - 1]);
    }
  }

  lemma SettledIsUnambiguous(w: World, root: Request, c: Closure, pasted: map<Name, Pointer>)
    requires PointersIdentify(w)
    requires Covered(w, c, pasted) && Indexed(c, pasted) && Grounded(w, root, c)
    requires Settled(w, pasted, c.refs, root) && Resolve(w, root).Local?
    ensures Unambiguous(w, root)
  {
    forall r | Reachable(w, root, r) ensures Settled(w, pasted, c.refs, r) {
      var chain :| Chain(w, chain) && chain[0] == root && chain[|chain| - 1] == r;
      ReachableIsSettled(w, root, c, pasted, chain);
    }
  }

  // ---------------------------------------------------------------- the report, read off the result

  /** The requests a pasted declaration adds, in order. */
  function References(decl: Decl, globals: set<Name>, n: nat): (r: seq<Request>)
    requires n <= |decl.names|
    ensures forall q :: q in r <==> q.from == decl.file && q.name in decl.names[..n] && q.name !in globals
  {
    if n == 0 then []
    else
      var front := References(decl, globals, n - 1);
      assert decl.names[..n] == decl.names[..n - 1] + [decl.names[n - 1]];
      if decl.names[n - 1] in globals then front else front + [Request(decl.names[n - 1], decl.file)]
  }

  /** All requests of a run: the config type's, then those of each paste in turn. */
  ghost function Mentions(globals: set<Name>, root: Request, pastes: seq<Paste>): seq<Request> {
    if pastes == [] then [root]
    else
      var last := pastes[|pastes| - 1];
      Mentions(globals, root, pastes[..|pastes| - 1]) + References(last.decl, globals, |last.decl.names|)
  }

  /** What is wrong with a request that is not settled, given everything pasted and imported in the end. */
  ghost function Refusal(w: World, root: Request, pasted: map<Name, Pointer>, r: Request): Violation {
    match Resolve(w, r)
    case Unresolved => NotDeclared(r)
    case External(_) =>
      if r.name == root.name then ConfigTypeImported(r.name)
      else if r.name in pasted then LocalThenImport(r.name)
      else TwoImports(r.name)
    case Local(_) => if r.name in pasted then TwoDeclarations(r.name) else ImportThenLocal(r.name)
  }

  /** One violation for each request that is not settled, in the order of the requests. */
  ghost function Refusals(w: World, root: Request, pasted: map<Name, Pointer>, refs: map<Name, TypeRef>,
          requests: seq<Request>): seq<Violation>
  {
    if requests == [] then []
    else
      var front, last := requests[..|requests| - 1], requests[|requests| - 1];
      Refusals(w, root, pasted, refs, front) +
      if Settled(w, pasted, refs, last) then [] else [Refusal(w, root, pasted, last)]
  }

  /** One paste for each name declared in the package, where it is first met. */
  ghost function Firsts(w: World, pasted: map<Name, Pointer>, refs: map<Name, TypeRef>, requests: seq<Request>)
    : seq<Paste>
  {
    if requests == [] then []
    else
      var last := requests[|requests| - 1];
      var front := Firsts(w, pasted, refs, requests[..|requests| - 1]);
      if Resolve(w, last).Local? && Settled(w, pasted, refs, last) && !HasPaste(front, last.name)
      then front + [Paste(last.name, Resolve(w, last).decl)] else front
  }

  /** The result as a whole: what was asked for, what was pasted for it, and what was refused. */
  ghost predicate Reported(w: World, root: Request, c: Closure, pasted: map<Name, Pointer>, requests: seq<Request>) {
    && c.violations == Refusals(w, root, pasted, c.refs, requests)
    && c.pastes == Firsts(w, pasted, c.refs, requests)
    && root.name !in c.refs
  }

  lemma {:induction false} RefusedOrSettled(w: World, root: Request, pasted: map<Name, Pointer>,
          refs: map<Name, TypeRef>, requests: seq<Request>, r: Request)
    requires r in requests
    ensures Settled(w, pasted, refs, r) ||
      Refusal(w, root, pasted, r) in Refusals(w, root, pasted, refs, requests)
  {
    var front, last := requests[..|requests| - 1], requests[|requests| - 1];
    if r == last {
    } else {
      assert requests == front + [last];
      RefusedOrSettled(w, root, pasted, refs, front, r);
    }
  }

  lemma {:induction false} MentionsHave(globals: set<Name>, root: Request, pastes: seq<Paste>)
    ensures root in Mentions(globals, root, pastes)
    ensures forall p, n :: p in pastes && n in p.decl.names && n !in globals ==>
      Request(n, p.decl.file) in Mentions(globals, root, pastes)
  {
    if pastes == [] {
    } else {
      var front, last := pastes[..|pastes| - 1], pastes[|pastes| - 1];
      assert pastes == front + [last] && last.decl.names[..|last.decl.names|] == last.decl.names;
      MentionsHave(globals, root, front);
    }
  }

  /** What a pasted declaration references is settled, or the report says what is wrong with it. */
  lemma NothingIsLost(w: World, root: Request, c: Closure, pasted: map<Name, Pointer>)
    requires Reported(w, root, c, pasted, Mentions(w.globals, root, c.pastes))
    ensures (Settled(w, pasted, c.refs, root) && Resolve(w, root).Local?) ||
      Refusal(w, root, pasted, root) in c.violations
    ensures forall p, n :: p in c.pastes && n in p.decl.names && n !in w.globals ==>
      var r := Request(n, p.decl.file);
      Settled(w, pasted, c.refs, r) || Refusal(w, root, pasted, r) in c.violations
  {
    var requests := Mentions(w.globals, root, c.pastes);
    MentionsHave(w.globals, root, c.pastes);
    forall r | r in requests ensures Settled(w, pasted, c.refs, r) || Refusal(w, root, pasted, r) in c.violations {
      RefusedOrSettled(w, root, pasted, c.refs, requests, r);
    }
  }

  // ---------------------------------------------------------------- one item of the queue

  /** The first paste is the config type's own declaration. */
  ghost predicate ConfigTypeFirst(w: World, root: Request, pastes: seq<Paste>) {
    pastes != [] && pastes[0].name == root.name && Resolve(w, root) == Local(pastes[0].decl)
  }

  /** Only reachable requests are queued, and only the config type until it has been pasted. */
  ghost predicate Queued(w: World, root: Request, pastes: seq<Paste>, queue: seq<Request>) {
    && (forall r :: r in queue ==> Reachable(w, root, r))
    && if pastes == [] then forall r :: r in queue ==> r == root else ConfigTypeFirst(w, root, pastes)
  }

  ghost predicate AllTrue(w: World, root: Request, violations: seq<Violation>) {
    forall v :: v in violations ==> IsTrue(w, root, v)
  }

  /** Nothing pasted or imported later for other names changes how the request fares. */
  ghost predicate Decided(w: World, root: Request, pasted: map<Name, Pointer>, refs: map<Name, TypeRef>, r: Request) {
    match Resolve(w, r)
    case Unresolved => true
    case External(_) => r.name == root.name || r.name in pasted || r.name in refs
    case Local(_) => r.name in pasted || r.name in refs
  }

  /** What has been handled so far and what is still queued make up the requests; the report is that of the former. */
  ghost predicate Handled(w: World, root: Request, c: Closure, pasted: map<Name, Pointer>, done: seq<Request>) {
    && (forall r :: r in done ==> Decided(w, root, pasted, c.refs, r))
    && Reported(w, root, c, pasted, done)
  }

  /** The loop invariant of the worklist. */
  ghost predicate Sound(w: World, root: Request, c: Closure, pasted: map<Name, Pointer>, done: seq<Request>,
          queue: seq<Request>)
  {
    && Indexed(c, pasted)
    && Grounded(w, root, c)
    && Queued(w, root, c.pastes, queue)
    && AllTrue(w, root, c.violations)
    && Handled(w, root, c, pasted, done)
    && done + queue == Mentions(w.globals, root, c.pastes)
  }

  lemma SoundInParts(w: World, root: Request, c: Closure, pasted: map<Name, Pointer>, done: seq<Request>,
          queue: seq<Request>)
    requires Indexed(c, pasted) && Grounded(w, root, c)
    requires Queued(w, root, c.pastes, queue) && AllTrue(w, root, c.violations)
    requires Handled(w, root, c, pasted, done)
    requires done + queue == Mentions(w.globals, root, c.pastes)
    ensures Sound(w, root, c, pasted, done, queue)
  {
  }

  lemma QueuedTail(w: World, root: Request, pastes: seq<Paste>, queue: seq<Request>)
    requires queue != [] && Queued(w, root, pastes, queue)
    ensures Queued(w, root, pastes, queue[1..])
  {
    assert forall r :: r in queue[1..] ==> r in queue;
  }

  lemma OneMoreTrue(w: World, root: Request, violations: seq<Violation>, v: Violation)
    requires AllTrue(w, root, violations) && IsTrue(w, root, v)
    ensures AllTrue(w, root, violations + [v])
  {
  }

  lemma HeadMoves(done: seq<Request>, queue: seq<Request>)
    requires queue != []
    ensures done + [queue[0]] + queue[1..] == done + queue
    ensures (done + [queue[0]])[..|done|] == done
  {
  }

  /** A complaint is about a request that is not settled, and names what is wrong with it. */
  lemma ComplaintIsRefusal(w: World, root: Request, c: Closure, pasted: map<Name, Pointer>, r: Request)
    requires Indexed(c, pasted) && root.name !in c.refs
    requires Complaint(w, root, pasted, c.refs, r).Some?
    ensures !Settled(w, pasted, c.refs, r) && Decided(w, root, pasted, c.refs, r)
    ensures Complaint(w, root, pasted, c.refs, r).value == Refusal(w, root, pasted, r)
  {
  }

  lemma RefusedIsHandled(w: World, root: Request, c: Closure, pasted: map<Name, Pointer>, done: seq<Request>,
          r: Request)
    requires Handled(w, root, c, pasted, done)
    requires !Settled(w, pasted, c.refs, r) && Decided(w, root, pasted, c.refs, r)
    ensures Handled(w, root, c.(violations := c.violations + [Refusal(w, root, pasted, r)]), pasted, done + [r])
  {
    assert (done + [r])[..|done|] == done;
  }

  lemma SettledIsHandled(w: World, root: Request, c: Closure, pasted: map<Name, Pointer>, done: seq<Request>,
          r: Request)
    requires Handled(w, root, c, pasted, done) && Indexed(c, pasted) && Settled(w, pasted, c.refs, r)
    ensures Handled(w, root, c, pasted, done + [r])
  {
    assert (done + [r])[..|done|] == done;
    if Resolve(w, r).Local? {
      assert HasPaste(c.pastes, r.name);
    }
  }

  lemma RefusedItem(w: World, root: Request, c: Closure, pasted: map<Name, Pointer>, done: seq<Request>,
          queue: seq<Request>)
    requires queue != [] && Sound(w, root, c, pasted, done, queue)
    requires Complaint(w, root, pasted, c.refs, queue[0]).Some?
    ensures var v := Complaint(w, root, pasted, c.refs, queue[0]).value;
      Sound(w, root, c.(violations := c.violations + [v]), pasted, done + [queue[0]], queue[1..])
  {
    var v := Complaint(w, root, pasted, c.refs, queue[0]).value;
    ComplaintIsTrue(w, root, c, pasted, queue[0]);
    ComplaintIsRefusal(w, root, c, pasted, queue[0]);
    OneMoreTrue(w, root, c.violations, v);
    QueuedTail(w, root, c.pastes, queue);
    HeadMoves(done, queue);
    RefusedIsHandled(w, root, c, pasted, done, queue[0]);
  }

  lemma SettledItem(w: World, root: Request, c: Closure, pasted: map<Name, Pointer>, done: seq<Request>,
          queue: seq<Request>)
    requires queue != [] && Sound(w, root, c, pasted, done, queue)
    requires Settled(w, pasted, c.refs, queue[0])
    ensures Sound(w, root, c, pasted, done + [queue[0]], queue[1..])
  {
    QueuedTail(w, root, c.pastes, queue);
    HeadMoves(done, queue);
    SettledIsHandled(w, root, c, pasted, done, queue[0]);
  }

  /** The requests fare the same with one more paste or import as without. */
  ghost predicate Alike(w: World, root: Request, before: Closure, pasted: map<Name, Pointer>, after: Closure,
          pasted': map<Name, Pointer>, requests: seq<Request>)
  {
    forall r :: r in requests ==>
      && (Settled(w, pasted, before.refs, r) <==> Settled(w, pasted', after.refs, r))
      && Refusal(w, root, pasted, r) == Refusal(w, root, pasted', r)
  }

  lemma {:induction false} ReportsAlike(w: World, root: Request, before: Closure, pasted: map<Name, Pointer>,
          after: Closure, pasted': map<Name, Pointer>, requests: seq<Request>)
    requires Alike(w, root, before, pasted, after, pasted', requests)
    ensures Refusals(w, root, pasted, before.refs, requests) == Refusals(w, root, pasted', after.refs, requests)
    ensures Firsts(w, pasted, before.refs, requests) == Firsts(w, pasted', after.refs, requests)
  {
    if requests == [] {
    } else {
      var front, last := requests[..|requests| - 1], requests[|requests| - 1];
      assert requests == front + [last];
      ReportsAlike(w, root, before, pasted, after, pasted', front);
    }
  }

  lemma ImportIsGrounded(w: World, root: Request, c: Closure, item: Request, ref: TypeRef)
    requires Grounded(w, root, c) && Reachable(w, root, item) && Resolve(w, item) == External(ref)
    ensures Grounded(w, root, c.(refs := c.refs[item.name := ref]))
  {
    assert Reached(w, root, item.name, External(ref));
  }

  lemma ImportKeepsHandled(w: World, root: Request, c: Closure, pasted: map<Name, Pointer>, done: seq<Request>,
          n: Name, ref: TypeRef)
    requires Handled(w, root, c, pasted, done) && n != root.name && n !in pasted
    requires n in c.refs ==> c.refs[n] == ref
    ensures Handled(w, root, c.(refs := c.refs[n := ref]), pasted, done)
  {
    var c' := c.(refs := c.refs[n := ref]);
    if n in c.refs {
      assert c'.refs == c.refs;
    } else {
      assert Alike(w, root, c, pasted, c', pasted, done);
      ReportsAlike(w, root, c, pasted, c', pasted, done);
    }
  }

  lemma ImportedItem(w: World, root: Request, c: Closure, pasted: map<Name, Pointer>, done: seq<Request>,
          queue: seq<Request>, ref: TypeRef)
    requires queue != [] && Sound(w, root, c, pasted, done, queue)
    requires Resolve(w, queue[0]) == External(ref)
    requires queue[0].name != root.name && queue[0].name !in pasted
    requires queue[0].name in c.refs ==> c.refs[queue[0].name] == ref
    ensures Sound(w, root, c.(refs := c.refs[queue[0].name := ref]), pasted, done, queue)
    ensures Settled(w, pasted, c.refs[queue[0].name := ref], queue[0])
  {
    assert Reachable(w, root, queue[0]);
    ImportIsGrounded(w, root, c, queue[0], ref);
    ImportKeepsHandled(w, root, c, pasted, done, queue[0].name, ref);
    SoundInParts(w, root, c.(refs := c.refs[queue[0].name := ref]), pasted, done, queue);
  }

  lemma PastedIsGrounded(w: World, root: Request, c: Closure, item: Request, decl: Decl)
    requires Grounded(w, root, c) && Reachable(w, root, item) && Resolve(w, item) == Local(decl)
    ensures Grounded(w, root, c.(pastes := c.pastes + [Paste(item.name, decl)]))
  {
    assert Reached(w, root, item.name, Local(decl));
  }

  lemma PastedIsIndexed(c: Closure, pasted: map<Name, Pointer>, p: Paste)
    requires Indexed(c, pasted) && p.name !in pasted && p.name !in c.refs
    ensures Indexed(c.(pastes := c.pastes + [p]), pasted[p.name := p.decl.key])
  {
    var c' := c.(pastes := c.pastes + [p]);
    assert p in c'.pastes && HasPaste(c'.pastes, p.name);
    forall n | n in pasted ensures HasPaste(c'.pastes, n) {
      assert HasPaste(c.pastes, n);
      var q :| q in c.pastes && q.name == n;
      assert q in c'.pastes;
    }
  }

  /** The paste of a name met for the first time is reported with the request that met it. */
  lemma PastedIsHandled(w: World, root: Request, c: Closure, pasted: map<Name, Pointer>, done: seq<Request>,
          item: Request, decl: Decl)
    requires Handled(w, root, c, pasted, done) && Indexed(c, pasted)
    requires Resolve(w, item) == Local(decl) && item.name !in pasted && item.name !in c.refs
    ensures Handled(w, root, c.(pastes := c.pastes + [Paste(item.name, decl)]), pasted[item.name := decl.key],
                    done + [item])
  {
    var c' := c.(pastes := c.pastes + [Paste(item.name, decl)]);
    var pasted' := pasted[item.name := decl.key];
    assert Alike(w, root, c, pasted, c', pasted', done);
    ReportsAlike(w, root, c, pasted, c', pasted', done);
    assert (done + [item])[..|done|] == done;
    assert !HasPaste(c.pastes, item.name);
  }

  lemma Regroup(done: seq<Request>, queue: seq<Request>, added: seq<Request>)
    requires queue != []
    ensures done + [queue[0]] + (queue[1..] + added) == done + queue + added
  {
  }

  lemma PastedMentions(globals: set<Name>, root: Request, pastes: seq<Paste>, p: Paste, done: seq<Request>,
          queue: seq<Request>)
    requires queue != [] && done + queue == Mentions(globals, root, pastes)
    ensures done + [queue[0]] + (queue[1..] + References(p.decl, globals, |p.decl.names|))
         == Mentions(globals, root, pastes + [p])
  {
    assert (pastes + [p])[..|pastes|] == pastes;
    Regroup(done, queue, References(p.decl, globals, |p.decl.names|));
  }

  lemma PastedIsQueued(w: World, root: Request, c: Closure, queue: seq<Request>, decl: Decl)
    requires queue != [] && Queued(w, root, c.pastes, queue) && Resolve(w, queue[0]) == Local(decl)
    ensures Queued(w, root, c.pastes + [Paste(queue[0].name, decl)],
                   queue[1..] + References(decl, w.globals, |decl.names|))
  {
    var added := References(decl, w.globals, |decl.names|);
    assert decl.names[..|decl.names|] == decl.names;
    assert queue[0] in queue;
    forall r | r in added ensures Reachable(w, root, r) {
      ReferredIsReachable(w, root, queue[0], r);
    }
  }

  lemma PastedItem(w: World, root: Request, c: Closure, pasted: map<Name, Pointer>, done: seq<Request>,
          queue: seq<Request>, decl: Decl)
    requires queue != [] && Sound(w, root, c, pasted, done, queue)
    requires Resolve(w, queue[0]) == Local(decl)
    requires queue[0].name !in pasted && queue[0].name !in c.refs
    ensures Sound(w, root, c.(pastes := c.pastes + [Paste(queue[0].name, decl)]), pasted[queue[0].name := decl.key],
                  done + [queue[0]], queue[1..] + References(decl, w.globals, |decl.names|))
  {
    var paste := Paste(queue[0].name, decl);
    assert Reachable(w, root, queue[0]);
    PastedIsIndexed(c, pasted, paste);
    PastedIsGrounded(w, root, c, queue[0], decl);
    PastedIsHandled(w, root, c, pasted, done, queue[0], decl);
    PastedIsQueued(w, root, c, queue, decl);
    PastedMentions(w.globals, root, c.pastes, paste, done, queue);
    SoundInParts(w, root, c.(pastes := c.pastes + [paste]), pasted[paste.name := decl.key], done + [queue[0]],
                 queue[1..] + References(decl, w.globals, |decl.names|));
  }

  /** Enqueues what a pasted declaration references, globals left out. */
  method Enqueue(queue: seq<Request>, decl: Decl, globals: set<Name>) returns (r: seq<Request>)
    ensures r == queue + References(decl, globals, |decl.names|)
  {
    r := queue;
    for n := 0 to |decl.names|
      invariant r == queue + References(decl, globals, n)
    {
      if decl.names[n] !in globals {
        r := r + [Request(decl.names[n], decl.file)];
      }
    }
  }

  lemma LocalNameLeft(w: World, item: Request, pasted: map<Name, Pointer>, key: Pointer)
    requires Resolve(w, item).Local? && item.name !in pasted
    ensures LocalNames(w) - pasted[item.name := key].Keys < LocalNames(w) - pasted.Keys
  {
    assert item.name in LocalNames(w) - pasted.Keys;
  }

  /** One round of the worklist: the head of the queue is settled or refused, and the others stay queued. */
  method ProcessItem(w: World, root: Request, c: Closure, pasted: map<Name, Pointer>, ghost done: seq<Request>,
          queue: seq<Request>)
    returns (c': Closure, pasted': map<Name, Pointer>, rest: seq<Request>)
    requires queue != [] && Sound(w, root, c, pasted, done, queue)
    ensures Sound(w, root, c', pasted', done + [queue[0]], rest)
    ensures queue[1..] <= rest
    ensures if Settled(w, pasted', c'.refs, queue[0]) then c'.violations == c.violations
            else c' == c.(violations := c.violations + [Refusal(w, root, pasted, queue[0])]) && pasted' == pasted
    ensures LocalNames(w) - pasted'.Keys < LocalNames(w) - pasted.Keys || (pasted' == pasted && |rest| < |queue|)
  {
    var item := queue[0];
    c', pasted', rest := c, pasted, queue[1..];
    var complaint := Complaint(w, root, pasted, c.refs, item);
    if complaint.Some? {
      RefusedItem(w, root, c, pasted, done, queue);
      ComplaintIsRefusal(w, root, c, pasted, item);
      c' := c.(violations := c.violations + [complaint.value]);
    } else if Resolve(w, item).External? {
      var ref := Resolve(w, item).ref;
      ImportedItem(w, root, c, pasted, done, queue, ref);
      c' := c.(refs := c.refs[item.name := ref]);
      SettledItem(w, root, c', pasted, done, queue);
    } else if item.name in pasted {
      SettledItem(w, root, c, pasted, done, queue);
    } else {
      var decl := Resolve(w, item).decl;
      LocalNameLeft(w, item, pasted, decl.key);
      PastedItem(w, root, c, pasted, done, queue, decl);
      pasted' := pasted[item.name := decl.key];
      c' := c.(pastes := c.pastes + [Paste(item.name, decl)]);
      rest := Enqueue(queue[1..], decl, w.globals);
    }
  }

  lemma {:induction false} NothingRefused(w: World, root: Request, pasted: map<Name, Pointer>,
          refs: map<Name, TypeRef>, requests: seq<Request>)
    requires Refusals(w, root, pasted, refs, requests) == []
    ensures forall r :: r in requests ==> Settled(w, pasted, refs, r)
  {
    if requests == [] {
    } else {
      var front, last := requests[..|requests| - 1], requests[|requests| - 1];
      assert requests == front + [last];
      NothingRefused(w, root, pasted, refs, front);
    }
  }

  lemma CleanIsCovered(w: World, root: Request, c: Closure, pasted: map<Name, Pointer>)
    requires Reported(w, root, c, pasted, Mentions(w.globals, root, c.pastes)) && c.violations == []
    ensures Covered(w, c, pasted) && Settled(w, pasted, c.refs, root) && Resolve(w, root).Local?
  {
    NothingRefused(w, root, pasted, c.refs, Mentions(w.globals, root, c.pastes));
    MentionsHave(w.globals, root, c.pastes);
  }

  /**
   * Pastes the transitive closure of the config type; it terminates on cyclic declarations. The
   * requests of a run are the config type's and those of each paste. Each request is settled, or is
   * refused with one violation that says why, in order; each name is pasted once, where it is first
   * met, or imported once. A violation is reported exactly when the closure is ambiguous, and every
   * violation is true.
   */
  method CollectPastes(w: World, root: Request) returns (c: Closure, pasted: map<Name, Pointer>)
    ensures Indexed(c, pasted) && Grounded(w, root, c)
    ensures Reported(w, root, c, pasted, Mentions(w.globals, root, c.pastes))
    ensures c.violations == [] ==>
      Covered(w, c, pasted) && Settled(w, pasted, c.refs, root) && Resolve(w, root).Local?
    ensures c.pastes != [] ==> ConfigTypeFirst(w, root, c.pastes)
    ensures AllTrue(w, root, c.violations)
    ensures c.violations != [] ==> !Unambiguous(w, root)
    ensures c.violations == [] && PointersIdentify(w) ==> Unambiguous(w, root)
  {
    c, pasted := Closure([], map[], []), map[];
    var queue := [root];
    ghost var done: seq<Request> := [];
    RootIsReachable(w, root);
    while queue != []
      invariant Sound(w, root, c, pasted, done, queue)
      decreases LocalNames(w) - pasted.Keys, |queue|
    {
      ghost var head := queue[0];
      c, pasted, queue := ProcessItem(w, root, c, pasted, done, queue);
      done := done + [head];
    }
    assert done + [] == done;
    if c.violations != [] {
      assert c.violations[0] in c.violations;
      ViolationRefutes(w, root, c.violations[0]);
    } else {
      CleanIsCovered(w, root, c, pasted);
      if PointersIdentify(w) {
        SettledIsUnambiguous(w, root, c, pasted);
      }
    }
  }
}
