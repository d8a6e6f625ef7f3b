/** Compiler-face isolation: no reference enters the wrong leaf of a split Host/Client project. */
module ReferenceFaces {
  import opened Wrappers

  datatype Path = Path(text: string)

  datatype Face = Host | Client

  /** A config's local `extends` target and its reference targets, as resolved config paths. */
  datatype Config = Config(parent: Option<Path>, references: seq<Path>)

  /**
   * The existing configs, and what the path helpers compute: the face a path's own name fixes, the
   * split project containing a path, and the leaf config of a split project for a face.
   */
  datatype Workspace = Workspace(configs: map<Path, Config>,
                                 namedFace: Path -> Option<Face>,
                                 splitRoot: Path -> Option<Path>,
                                 leaf: (Path, Face) -> Path)

  // ---------------------------------------------------------------- the face of a config

  /** The `n`-th config along the `extends` chain, while every config on it exists. */
  function Ancestor(w: Workspace, p: Path, n: nat): Option<Path> {
    if n == 0 then Some(p)
    else
      var child := Ancestor(w, p, n - 1);
      if child.None? || child.value !in w.configs then None
      else
        var parent := w.configs[child.value].parent;
        if parent.Some? && parent.value in w.configs then parent else None
  }

  ghost predicate NearestNamed(w: Workspace, p: Path, f: Face, n: nat) {
    && Ancestor(w, p, n).Some? && w.namedFace(Ancestor(w, p, n).value) == Some(f)
    && forall k :: 0 <= k < n ==> Ancestor(w, p, k).Some? && w.namedFace(Ancestor(w, p, k).value).None?
  }

  /** The nearest config along the chain whose own name fixes a face has face `f`. */
  ghost predicate InheritsFace(w: Workspace, p: Path, f: Face) {
    exists n: nat :: NearestNamed(w, p, f, n)
  }

  /** The walk along `extends`, refusing to visit a config twice. */
  function ProjectFace(w: Workspace, p: Path, seen: set<Path>): Option<Face>
    requires p in w.configs
    decreases w.configs.Keys - seen
  {
    if w.namedFace(p).Some? then w.namedFace(p)
    else if p in seen then None
    else
      var parent := w.configs[p].parent;
      if parent.None? || parent.value !in w.configs then None
      else
        assert p in w.configs.Keys - seen;
        ProjectFace(w, parent.value, seen + {p})
  }

  lemma {:induction false} AncestorOfParent(w: Workspace, p: Path, n: nat)
    requires p in w.configs && Ancestor(w, p, 1).Some?
    ensures Ancestor(w, p, n + 1) == Ancestor(w, Ancestor(w, p, 1).value, n)
  {
    if n == 0 {
    } else {
      AncestorOfParent(w, p, n - 1);
    }
  }

  /** The walk is sound: what it returns is the nearest named ancestor's face. */
  lemma {:induction false} FaceIsInherited(w: Workspace, p: Path, seen: set<Path>)
    requires p in w.configs
    ensures ProjectFace(w, p, seen).Some? ==> InheritsFace(w, p, ProjectFace(w, p, seen).value)
    decreases w.configs.Keys - seen
  {
    var face := ProjectFace(w, p, seen);
    if w.namedFace(p).Some? {
      assert NearestNamed(w, p, face.value, 0);
    } else if face.Some? {
      var parent := w.configs[p].parent.value;
      assert p in w.configs.Keys - seen;
      FaceIsInherited(w, parent, seen + {p});
      var n: nat :| NearestNamed(w, parent, face.value, n);
      assert Ancestor(w, p, 1) == Some(parent);
      AncestorOfParent(w, p, n);
      forall k | 0 <= k < n + 1 ensures Ancestor(w, p, k).Some? && w.namedFace(Ancestor(w, p, k).value).None? {
        if k > 0 {
          AncestorOfParent(w, p, k - 1);
        }
      }
      assert NearestNamed(w, p, face.value, n + 1);
    }
  }

  lemma {:induction false} AncestorRepeats(w: Workspace, p: Path, period: nat, n: nat)
    requires Ancestor(w, p, period) == Some(p)
    ensures Ancestor(w, p, period + n) == Ancestor(w, p, n)
  {
    if n == 0 {
    } else {
      AncestorRepeats(w, p, period, n - 1);
    }
  }

  /** A chain that returns to its start repeats itself, so its first named config comes earlier. */
  lemma LoopsBack(w: Workspace, p: Path, period: nat, f: Face, n: nat)
    requires NearestNamed(w, p, f, n)
    requires 0 < period && Ancestor(w, p, period) == Some(p)
    ensures n < period
  {
    if period <= n {
      AncestorRepeats(w, p, period, n - period);
    }
  }

  /**
   * The walk is complete: if it gives up although some ancestor is named, it must have met a config
   * that an enclosing call had already visited.
   */
  lemma {:induction false} FaceIsFound(w: Workspace, p: Path, seen: set<Path>, f: Face, n: nat)
    requires p in w.configs && NearestNamed(w, p, f, n)
    requires forall k :: 0 <= k <= n ==> Ancestor(w, p, k).Some? && Ancestor(w, p, k).value !in seen
    ensures ProjectFace(w, p, seen) == Some(f)
    decreases n
  {
    assert Ancestor(w, p, 0) == Some(p);
    if n == 0 {
    } else {
      assert w.namedFace(p).None? && p !in seen;
      assert Ancestor(w, p, 1).Some?;
      var parent := Ancestor(w, p, 1).value;
      forall k | 0 <= k <= n - 1 ensures Ancestor(w, parent, k) == Ancestor(w, p, k + 1) {
        AncestorOfParent(w, p, k);
      }
      forall k | 0 <= k <= n - 1 ensures Ancestor(w, parent, k).Some? && Ancestor(w, parent, k).value !in seen + {p} {
        assert Ancestor(w, p, k + 1).Some? && Ancestor(w, p, k + 1).value !in seen;
        if Ancestor(w, p, k + 1) == Some(p) {
          LoopsBack(w, p, k + 1, f, n);
        }
      }
      FaceIsFound(w, parent, seen + {p}, f, n - 1);
    }
  }

  /** The face of a config is that of its nearest named ancestor, on cyclic chains too. */
  lemma FaceIsNearestNamed(w: Workspace, p: Path, f: Face)
    requires p in w.configs
    ensures ProjectFace(w, p, {}) == Some(f) <==> InheritsFace(w, p, f)
  {
    FaceIsInherited(w, p, {});
    if InheritsFace(w, p, f) {
      var n: nat :| NearestNamed(w, p, f, n);
      FaceIsFound(w, p, {}, f, n);
    }
  }

  // ---------------------------------------------------------------- edges

  /** A reference edge out of an existing config. */
  ghost predicate Edge(w: Workspace, a: Path, b: Path) {
    a in w.configs && b in w.configs[a].references
  }

  /** The edge stays out of split projects, or names the leaf of the source's face. */
  ghost predicate GoodEdge(w: Workspace, a: Path, b: Path) {
    w.splitRoot(b).None? ||
    exists f :: InheritsFace(w, a, f) && b == w.leaf(w.splitRoot(b).value, f)
  }

  ghost predicate Chain(w: Workspace, c: seq<Path>, onlyGood: bool) {
    c != [] && forall i, j :: 0 <= i < j < |c| && j == i + 1 ==>
      Edge(w, c[i], c[j]) && (onlyGood ==> GoodEdge(w, c[i], c[j]))
  }

  /** Reachable from an aggregate along references. */
  ghost predicate Reachable(w: Workspace, roots: seq<Path>, p: Path, onlyGood: bool) {
    exists c :: Chain(w, c, onlyGood) && c[0] in roots && c[|c| - 1] == p
  }

  lemma RootsAreReachable(w: Workspace, roots: seq<Path>)
    ensures forall p :: p in roots ==> Reachable(w, roots, p, true)
  {
    forall p | p in roots ensures Reachable(w, roots, p, true) {
      assert Chain(w, [p], true);
    }
  }

  lemma ReachableExtends(w: Workspace, roots: seq<Path>, a: Path, b: Path)
    requires Reachable(w, roots, a, true) && Edge(w, a, b) && GoodEdge(w, a, b)
    ensures Reachable(w, roots, b, true)
  {
    var c :| Chain(w, c, true) && c[0] in roots && c[|c| - 1] == a;
    assert Chain(w, c + [b], true);
  }

  /** What a correct workspace satisfies, stated over every reachable edge. */
  ghost predicate FacesIsolated(w: Workspace, roots: seq<Path>) {
    forall a, b :: Reachable(w, roots, a, false) && Edge(w, a, b) ==> GoodEdge(w, a, b)
  }

  // ---------------------------------------------------------------- the traversal

  datatype Violation = Violation(from: Path, reference: Path, face: Option<Face>)

  /** Every good edge out of a visited config leads to something visited, pending or missing. */
  ghost predicate Closed(w: Workspace, visited: set<Path>, pending: seq<Path>) {
    forall a, b :: a in visited && Edge(w, a, b) && GoodEdge(w, a, b) ==>
      b in visited || b in pending || b !in w.configs
  }

  /** The violation carries the face, if any, of the config it is about. */
  ghost predicate NamesFace(w: Workspace, v: Violation) {
    forall f :: v.face == Some(f) <==> InheritsFace(w, v.from, f)
  }

  /** How often a violation is reported: once for each time its config lists the bad reference. */
  ghost function Due(w: Workspace, v: Violation, references: seq<Path>): nat
    requires v.from in w.configs
  {
    if v.reference in references && !GoodEdge(w, v.from, v.reference) && NamesFace(w, v)
    then multiset(references)[v.reference] else 0
  }

  /** The recorded violations are those due to visited configs, each as often as it is due. */
  ghost predicate Recorded(w: Workspace, visited: set<Path>, violations: seq<Violation>)
    requires visited <= w.configs.Keys
  {
    forall v :: multiset(violations)[v] ==
      if v.from in visited then Due(w, v, w.configs[v.from].references) else 0
  }

  /** The bad references of one config, each reported as often as it is listed, and nothing else reported. */
  ghost predicate ReportsBad(w: Workspace, config: Path, references: seq<Path>, violations: seq<Violation>)
    requires config in w.configs
  {
    forall v :: multiset(violations)[v] == if v.from == config then Due(w, v, references) else 0
  }

  lemma FaceIsOne(w: Workspace, v: Violation, u: Violation)
    requires v.from == u.from && v.reference == u.reference && NamesFace(w, v) && NamesFace(w, u)
    ensures v == u
  {
    assert v.face.Some? ==> InheritsFace(w, v.from, v.face.value);
    assert u.face.Some? ==> InheritsFace(w, u.from, u.face.value);
  }

  lemma ReportsOneMore(w: Workspace, config: Path, references: seq<Path>, violations: seq<Violation>, b: Path,
          found: seq<Violation>)
    requires config in w.configs && ReportsBad(w, config, references, violations)
    requires if GoodEdge(w, config, b) then found == []
      else exists face :: found == [Violation(config, b, face)] && NamesFace(w, found[0])
    ensures ReportsBad(w, config, references + [b], violations + found)
  {
    forall v ensures multiset(violations + found)[v] ==
      if v.from == config then Due(w, v, references + [b]) else 0
    {
      assert multiset(references + [b])[v.reference] == multiset(references)[v.reference] +
        if v.reference == b then 1 else 0;
      if found != [] && v.from == config && v.reference == b && NamesFace(w, v) {
        FaceIsOne(w, v, found[0]);
      }
    }
  }

  lemma FaceIsExact(w: Workspace, p: Path)
    requires p in w.configs
    ensures forall f :: ProjectFace(w, p, {}) == Some(f) <==> InheritsFace(w, p, f)
  {
    forall f ensures ProjectFace(w, p, {}) == Some(f) <==> InheritsFace(w, p, f) {
      FaceIsNearestNamed(w, p, f);
    }
  }

  lemma GoodEdgeByFace(w: Workspace, a: Path, b: Path)
    requires a in w.configs
    ensures GoodEdge(w, a, b) <==>
      || w.splitRoot(b).None?
      || (ProjectFace(w, a, {}).Some? && b == w.leaf(w.splitRoot(b).value, ProjectFace(w, a, {}).value))
  {
    FaceIsExact(w, a);
  }

  /** Checks the references of one config: good targets are returned, bad ones reported. */
  method CheckReferences(w: Workspace, config: Path) returns (targets: seq<Path>, violations: seq<Violation>)
    requires config in w.configs
    ensures forall b :: b in targets <==> b in w.configs[config].references && GoodEdge(w, config, b)
    ensures ReportsBad(w, config, w.configs[config].references, violations)
  {
    var face := ProjectFace(w, config, {});
    var references := w.configs[config].references;
    targets, violations := [], [];
    for n := 0 to |references|
      invariant forall b :: b in targets <==> b in references[..n] && GoodEdge(w, config, b)
      invariant ReportsBad(w, config, references[..n], violations)
    {
      var target := references[n];
      assert references[..n + 1] == references[..n] + [target];
      var splitRoot := w.splitRoot(target);
      GoodEdgeByFace(w, config, target);
      var found := [];
      if splitRoot.Some? && (face.None? || target != w.leaf(splitRoot.value, face.value)) {
        found := [Violation(config, target, face)];
        FaceIsExact(w, config);
        assert NamesFace(w, found[0]);
      } else {
        targets := targets + [target];
      }
      ReportsOneMore(w, config, references[..n], violations, target, found);
      violations := violations + found;
    }
    assert references[..|references|] == references;
  }

  /** The loop invariant of the traversal. */
  ghost predicate Swept(w: Workspace, roots: seq<Path>, visited: set<Path>, pending: seq<Path>,
          violations: seq<Violation>)
  {
    && visited <= w.configs.Keys
    && (forall p :: p in pending || p in visited ==> Reachable(w, roots, p, true))
    && (forall p :: p in roots ==> p in visited || p in pending || p !in w.configs)
    && Closed(w, visited, pending)
    && Recorded(w, visited, violations)
  }

  lemma SkipKeepsSwept(w: Workspace, roots: seq<Path>, visited: set<Path>, rest: seq<Path>, config: Path,
          violations: seq<Violation>)
    requires Swept(w, roots, visited, rest + [config], violations)
    requires config in visited || config !in w.configs
    ensures Swept(w, roots, visited, rest, violations)
  {
    assert forall p :: p in rest ==> p in rest + [config];
  }

  lemma VisitKeepsSwept(w: Workspace, roots: seq<Path>, visited: set<Path>, rest: seq<Path>, config: Path,
                        violations: seq<Violation>, targets: seq<Path>, found: seq<Violation>)
    requires Swept(w, roots, visited, rest + [config], violations)
    requires config in w.configs && config !in visited
    requires forall b :: b in targets <==> b in w.configs[config].references && GoodEdge(w, config, b)
    requires ReportsBad(w, config, w.configs[config].references, found)
    ensures Swept(w, roots, visited + {config}, rest + targets, violations + found)
  {
    assert config in rest + [config] && Reachable(w, roots, config, true);
    forall p | p in targets ensures Reachable(w, roots, p, true) {
      ReachableExtends(w, roots, config, p);
    }
    assert forall p :: p in rest ==> p in rest + [config];
    forall v ensures multiset(violations + found)[v] ==
      if v.from in visited + {config} then Due(w, v, w.configs[v.from].references) else 0
    {
      assert multiset(violations + found)[v] == multiset(violations)[v] + multiset(found)[v];
    }
  }

  lemma {:induction false} VisitedIsEverything(w: Workspace, roots: seq<Path>, visited: set<Path>, c: seq<Path>,
          onlyGood: bool)
    requires Closed(w, visited, [])
    requires forall p :: p in roots ==> p in visited || p !in w.configs
    requires onlyGood || forall a, b :: a in visited && Edge(w, a, b) ==> GoodEdge(w, a, b)
    requires Chain(w, c, onlyGood) && c[0] in roots
    ensures c[|c| - 1] in visited || c[|c| - 1] !in w.configs
    decreases |c|
  {
    if |c| <= 1 {
    } else {
      var front := c[..|c| - 1];
      assert Chain(w, front, onlyGood);
      VisitedIsEverything(w, roots, visited, front, onlyGood);
      assert Edge(w, front[|front| - 1], c[|c| - 1]);
    }
  }

  /** What should be reported: the bad edges out of configs reachable along good ones. */
  ghost function ReportsDue(w: Workspace, roots: seq<Path>, v: Violation): nat {
    if v.from in w.configs && Reachable(w, roots, v.from, true) then Due(w, v, w.configs[v.from].references) else 0
  }

  /** A sweep that is over has reported what is due, each violation as often as it is due. */
  lemma SweepReportsWhatIsDue(w: Workspace, roots: seq<Path>, visited: set<Path>, violations: seq<Violation>)
    requires Swept(w, roots, visited, [], violations)
    ensures forall v :: multiset(violations)[v] == ReportsDue(w, roots, v)
  {
    forall v ensures multiset(violations)[v] == ReportsDue(w, roots, v) {
      if v.from in w.configs && Reachable(w, roots, v.from, true) {
        var c :| Chain(w, c, true) && c[0] in roots && c[|c| - 1] == v.from;
        VisitedIsEverything(w, roots, visited, c, true);
      }
    }
  }

  lemma BadEdgeIsDue(w: Workspace, a: Path, b: Path) returns (v: Violation)
    requires Edge(w, a, b) && !GoodEdge(w, a, b)
    ensures v.from == a && v.reference == b && Due(w, v, w.configs[a].references) > 0
  {
    v := Violation(a, b, ProjectFace(w, a, {}));
    FaceIsExact(w, a);
    assert b in multiset(w.configs[a].references);
  }

  lemma BadEdgeIsReported(w: Workspace, visited: set<Path>, violations: seq<Violation>, a: Path, b: Path)
    requires visited <= w.configs.Keys && Recorded(w, visited, violations)
    requires a in visited && Edge(w, a, b) && !GoodEdge(w, a, b)
    ensures violations != []
  {
    var v := BadEdgeIsDue(w, a, b);
    assert multiset(violations)[v] > 0;
  }

  /** Not descending through bad edges loses nothing: the first bad edge is always found. */
  lemma SweepDecidesIsolation(w: Workspace, roots: seq<Path>, visited: set<Path>, violations: seq<Violation>)
    requires Swept(w, roots, visited, [], violations)
    ensures violations == [] <==> FacesIsolated(w, roots)
  {
    if violations == [] {
      forall a, b | a in visited && Edge(w, a, b) ensures GoodEdge(w, a, b) {
        if !GoodEdge(w, a, b) {
          BadEdgeIsReported(w, visited, violations, a, b);
        }
      }
      forall a, b | Reachable(w, roots, a, false) && Edge(w, a, b) ensures GoodEdge(w, a, b) {
        var c :| Chain(w, c, false) && c[0] in roots && c[|c| - 1] == a;
        VisitedIsEverything(w, roots, visited, c, false);
      }
    } else {
      var v := violations[0];
      assert v in multiset(violations);
      assert Reachable(w, roots, v.from, true);
      var c :| Chain(w, c, true) && c[0] in roots && c[|c| - 1] == v.from;
      assert Chain(w, c, false);
    }
  }

  /** The traversal loop. It terminates on cyclic references. */
  method Sweep(w: Workspace, roots: seq<Path>) returns (violations: seq<Violation>, ghost visited: set<Path>)
    ensures Swept(w, roots, visited, [], violations)
  {
    violations := [];
    var pending := roots;
    var seen: set<Path> := {};
    RootsAreReachable(w, roots);
    while pending != []
      invariant Swept(w, roots, seen, pending, violations)
      decreases w.configs.Keys - seen, |pending|
    {
      var config, rest := pending[|pending| - 1], pending[..|pending| - 1];
      assert pending == rest + [config];
      if config in seen || config !in w.configs {
        SkipKeepsSwept(w, roots, seen, rest, config, violations);
        pending := rest;
      } else {
        var targets, found := CheckReferences(w, config);
        VisitKeepsSwept(w, roots, seen, rest, config, violations, targets, found);
        assert config in w.configs.Keys - seen;
        seen := seen + {config};
        pending := rest + targets;
        violations := violations + found;
      }
    }
    visited := seen;
  }

  /**
   * Reports exactly the bad edges out of configs reachable along good ones, with the face each
   * violates and as often as it is listed, and so nothing exactly when every reachable edge is good.
   */
  method CollectViolations(w: Workspace, roots: seq<Path>) returns (violations: seq<Violation>)
    ensures forall v :: multiset(violations)[v] == ReportsDue(w, roots, v)
    ensures violations == [] <==> FacesIsolated(w, roots)
  {
    ghost var visited;
    violations, visited := Sweep(w, roots);
    SweepReportsWhatIsDue(w, roots, visited, violations);
    SweepDecidesIsolation(w, roots, visited, violations);
  }
}
