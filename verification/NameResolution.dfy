/**
 * Resolving a type name inside a package: to a declaration, following relative imports of that
 * name, or to the package import that brings it in.
 */
module NameResolution {
  import opened CatalogNames
  import opened PasteClosure
  import opened Wrappers

  /** A relative specifier that names a `.ts` file, any other relative one, or a package. */
  datatype Specifier = TsFile(file: File) | OtherRelative | Package(name: string)

  datatype Import = Import(imported: Name, specifier: Specifier)

  datatype Source = Source(decls: map<Name, Decl>, imports: map<Name, Import>)

  /** The readable files of a package. */
  type Files = map<File, Source>

  /** `Overflow` is the call stack running out. */
  datatype Outcome = Resolved(resolution: Resolution) | Unreadable(file: File) | Overflow

  /** The recursion with a stack of `frames` frames. It keeps no record of the files it has visited. */
  function ResolveTypeName(frames: nat, files: Files, file: File, name: Name): Outcome {
    if frames == 0 then Overflow
    else if file !in files then Unreadable(file)
    else if name in files[file].decls then Resolved(Local(files[file].decls[name]))
    else if name !in files[file].imports then Resolved(Unresolved)
    else
      var i := files[file].imports[name];
      match i.specifier
      case TsFile(target) =>
        if i.imported != name then Resolved(Unresolved) else ResolveTypeName(frames - 1, files, target, name)
      case OtherRelative => Resolved(Unresolved)
      case Package(specifier) => Resolved(External(TypeRef(i.imported, specifier)))
  }

  // ---------------------------------------------------------------- the chain of files

  /** The file a name is imported from under the same name, when this file does not declare it. */
  function ImportedFrom(files: Files, file: File, name: Name): Option<File> {
    if file !in files || name in files[file].decls || name !in files[file].imports then None
    else
      var i := files[file].imports[name];
      if i.specifier.TsFile? && i.imported == name then Some(i.specifier.file) else None
  }

  /** The `n`-th file along the imports of a name. */
  function Visited(files: Files, file: File, name: Name, n: nat): Option<File> {
    if n == 0 then Some(file)
    else
      var before := Visited(files, file, name, n - 1);
      if before.None? then None else ImportedFrom(files, before.value, name)
  }

  ghost predicate Meets(files: Files, file: File, name: Name, i: nat, j: nat) {
    Visited(files, file, name, i).Some? && Visited(files, file, name, i) == Visited(files, file, name, j)
  }

  /** Two positions of the chain are the same file. */
  ghost predicate Revisits(files: Files, file: File, name: Name) {
    exists i: nat, j: nat :: i < j && Meets(files, file, name, i, j)
  }

  lemma {:induction false} VisitedFromNext(files: Files, file: File, name: Name, n: nat)
    requires ImportedFrom(files, file, name).Some?
    ensures Visited(files, file, name, n + 1) == Visited(files, ImportedFrom(files, file, name).value, name, n)
  {
    if n == 0 {
    } else {
      VisitedFromNext(files, file, name, n - 1);
    }
  }

  lemma {:induction false} NothingAfterEnd(files: Files, file: File, name: Name, n: nat, m: nat)
    requires Visited(files, file, name, n).None? && n <= m
    ensures Visited(files, file, name, m).None?
    decreases m - n
  {
    if n >= m {
    } else {
      NothingAfterEnd(files, file, name, n, m - 1);
    }
  }

  /** Resolution overflows its stack exactly when the chain is longer than the stack. */
  lemma {:induction false} OverflowsIffLonger(frames: nat, files: Files, file: File, name: Name)
    ensures ResolveTypeName(frames, files, file, name).Overflow? <==> Visited(files, file, name, frames).Some?
    decreases frames
  {
    if frames == 0 {
    } else {
      var next := ImportedFrom(files, file, name);
      if next.Some? {
        OverflowsIffLonger(frames - 1, files, next.value, name);
        VisitedFromNext(files, file, name, frames - 1);
      } else {
        NothingAfterEnd(files, file, name, 1, frames);
      }
    }
  }

  /** From two equal positions on, the chain repeats itself. */
  lemma {:induction false} ChainRepeats(files: Files, file: File, name: Name, i: nat, j: nat, k: nat)
    requires Visited(files, file, name, i) == Visited(files, file, name, j)
    ensures Visited(files, file, name, i + k) == Visited(files, file, name, j + k)
  {
    if k == 0 {
    } else {
      ChainRepeats(files, file, name, i, j, k - 1);
    }
  }

  lemma {:induction false} RepeatingNeverEnds(files: Files, file: File, name: Name, i: nat, j: nat, n: nat)
    requires i < j && Meets(files, file, name, i, j)
    ensures Visited(files, file, name, n).Some?
    decreases n
  {
    if Visited(files, file, name, n).Some? {
    } else if n < j {
      NothingAfterEnd(files, file, name, n, j);
    } else {
      ChainRepeats(files, file, name, i, j, n - j);
      RepeatingNeverEnds(files, file, name, i, j, i + (n - j));
    }
  }

  /** Every file with a successor on the chain is readable. */
  lemma {:induction false} ReadableUpTo(files: Files, file: File, name: Name, k: nat, n: nat)
    requires k < n && Visited(files, file, name, n).Some?
    ensures Visited(files, file, name, k).Some? && Visited(files, file, name, k).value in files
    decreases n
  {
    if k == n - 1 {
    } else {
      ReadableUpTo(files, file, name, k, n - 1);
    }
  }

  lemma {:induction false} DistinctFilesFit(fs: seq<File>, s: set<File>)
    requires forall f :: f in fs ==> f in s
    requires forall i, j :: 0 <= i < j < |fs| ==> fs[i] != fs[j]
    ensures |fs| <= |s|
  {
    if fs == [] {
    } else {
      DistinctFilesFit(fs[1..], s - {fs[0]});
    }
  }

  /** A chain that never revisits a file ends before it runs out of readable files. */
  lemma ChainFits(files: Files, file: File, name: Name)
    requires !Revisits(files, file, name)
    ensures Visited(files, file, name, |files| + 1).None?
  {
    var n := |files| + 1;
    if Visited(files, file, name, n).Some? {
      forall k: nat | k < n
        ensures Visited(files, file, name, k).Some? && Visited(files, file, name, k).value in files
      {
        ReadableUpTo(files, file, name, k, n);
      }
      var all := seq(n, k requires 0 <= k < n => Visited(files, file, name, k).value);
      forall i, j | 0 <= i < j < n ensures all[i] != all[j] {
        assert !Meets(files, file, name, i, j);
      }
      DistinctFilesFit(all, files.Keys);
    }
  }

  /**
   * Resolution comes back exactly when the imports of the name do not lead back to a file they
   * passed. A stack of one frame per file, and one more, is then enough.
   */
  lemma ResolvesIffNoRevisit(files: Files, file: File, name: Name)
    ensures Revisits(files, file, name) ==> forall frames :: ResolveTypeName(frames, files, file, name).Overflow?
    ensures !Revisits(files, file, name) ==> !ResolveTypeName(|files| + 1, files, file, name).Overflow?
  {
    if Revisits(files, file, name) {
      var i: nat, j: nat :| i < j && Meets(files, file, name, i, j);
      forall frames: nat ensures ResolveTypeName(frames, files, file, name).Overflow? {
        RepeatingNeverEnds(files, file, name, i, j, frames);
        OverflowsIffLonger(frames, files, file, name);
      }
    } else {
      ChainFits(files, file, name);
      OverflowsIffLonger(|files| + 1, files, file, name);
    }
  }

  // ---------------------------------------------------------------- what a name resolves to

  /** What the last file of the chain says of the name: its declaration, its package import, or nothing usable. */
  ghost predicate Says(files: Files, file: File, name: Name, resolution: Resolution)
    requires file in files
  {
    var source := files[file];
    match resolution
    case Local(decl) => name in source.decls && source.decls[name] == decl
    case External(ref) =>
      && name !in source.decls && name in source.imports
      && source.imports[name] == Import(ref.imported, Package(ref.specifier))
    case Unresolved =>
      && name !in source.decls
      && (name in source.imports ==>
        && !source.imports[name].specifier.Package?
        && (source.imports[name].specifier.TsFile? ==> source.imports[name].imported != name))
  }

  /** The name is imported from file to file until one of them says what it is. */
  ghost predicate Denotes(files: Files, file: File, name: Name, resolution: Resolution, n: nat) {
    && Visited(files, file, name, n).Some? && Visited(files, file, name, n).value in files
    && Visited(files, file, name, n + 1).None? && Says(files, Visited(files, file, name, n).value, name, resolution)
  }

  lemma DenotesThrough(frames: nat, files: Files, file: File, name: Name, resolution: Resolution)
    requires frames > 0 && ImportedFrom(files, file, name).Some?
    ensures var next := ImportedFrom(files, file, name).value;
      (exists n: nat :: n < frames && Denotes(files, file, name, resolution, n)) <==>
      exists n: nat :: n < frames - 1 && Denotes(files, next, name, resolution, n)
  {
    var next := ImportedFrom(files, file, name).value;
    assert Visited(files, file, name, 1) == Some(next);
    forall n: nat ensures Denotes(files, file, name, resolution, n + 1) <==> Denotes(files, next, name, resolution, n) {
      VisitedFromNext(files, file, name, n);
      VisitedFromNext(files, file, name, n + 1);
    }
    if n: nat :| n < frames && Denotes(files, file, name, resolution, n) {
      assert Denotes(files, next, name, resolution, n - 1);
    }
    if n: nat :| n < frames - 1 && Denotes(files, next, name, resolution, n) {
      assert Denotes(files, file, name, resolution, n + 1);
    }
  }

  lemma DenotesHere(frames: nat, files: Files, file: File, name: Name, resolution: Resolution)
    requires frames > 0 && ImportedFrom(files, file, name).None?
    ensures (exists n: nat :: n < frames && Denotes(files, file, name, resolution, n)) <==>
      file in files && Says(files, file, name, resolution)
  {
    assert Visited(files, file, name, 1).None?;
    forall n: nat | n > 0 ensures !Denotes(files, file, name, resolution, n) {
      NothingAfterEnd(files, file, name, 1, n);
    }
    assert Denotes(files, file, name, resolution, 0) <==> file in files && Says(files, file, name, resolution);
  }

  /** Resolution answers what the chain of imports ends at. */
  lemma {:induction false} ResolvesToEnd(frames: nat, files: Files, file: File, name: Name, resolution: Resolution)
    ensures ResolveTypeName(frames, files, file, name) == Resolved(resolution) <==>
      exists n: nat :: n < frames && Denotes(files, file, name, resolution, n)
    decreases frames
  {
    if frames == 0 {
    } else {
      var next := ImportedFrom(files, file, name);
      if next.Some? {
        ResolvesToEnd(frames - 1, files, next.value, name, resolution);
        DenotesThrough(frames, files, file, name, resolution);
      } else {
        DenotesHere(frames, files, file, name, resolution);
      }
    }
  }

  /** Two files that import one name from each other send resolution round until the stack is full. */
  lemma MutualImportOverflows(name: Name, frames: nat)
    ensures var files: Files := map[
        0 := Source(map[], map[name := Import(name, TsFile(1))]),
        1 := Source(map[], map[name := Import(name, TsFile(0))])];
      ResolveTypeName(frames, files, 0, name).Overflow?
  {
    var files: Files := map[
      0 := Source(map[], map[name := Import(name, TsFile(1))]),
      1 := Source(map[], map[name := Import(name, TsFile(0))])];
    assert Visited(files, 0, name, 1) == Some(1);
    assert Visited(files, 0, name, 2) == Some(0);
    assert Meets(files, 0, name, 0, 2);
    ResolvesIffNoRevisit(files, 0, name);
  }

  // ---------------------------------------------------------------- identity by source pointer

  /** A declaration and its pointer name the file that declares it. */
  ghost predicate PointersName(files: Files) {
    forall f, n :: f in files && n in files[f].decls ==> files[f].decls[n].key.file == f && files[f].decls[n].file == f
  }

  ghost predicate ResolvesTo(files: Files, r: Request, resolution: Resolution) {
    exists frames: nat :: ResolveTypeName(frames, files, r.from, r.name) == Resolved(resolution)
  }

  /** The resolutions the worklist sees are those of the package. */
  ghost predicate ResolvedFrom(files: Files, w: World) {
    forall r :: r in w.resolve ==> ResolvesTo(files, r, w.resolve[r])
  }

  /** A name resolves to a declaration of that very name: package-local imports cannot rename. */
  lemma {:induction false} DeclaredUnderItsName(frames: nat, files: Files, file: File, name: Name, d: Decl)
    requires PointersName(files) && ResolveTypeName(frames, files, file, name) == Resolved(Local(d))
    ensures d.key.file in files && name in files[d.key.file].decls && files[d.key.file].decls[name] == d
    decreases frames
  {
    if name in files[file].decls {
    } else {
      DeclaredUnderItsName(frames - 1, files, files[file].imports[name].specifier.file, name, d);
    }
  }

  /** So a file and a line are enough to tell same-named declarations apart. */
  lemma PackagePointersIdentify(files: Files, w: World)
    requires PointersName(files) && ResolvedFrom(files, w)
    ensures PointersIdentify(w)
  {
    forall r, q | r in w.resolve && q in w.resolve && r.name == q.name
      && w.resolve[r].Local? && w.resolve[q].Local? && w.resolve[r].decl.key == w.resolve[q].decl.key
      ensures w.resolve[r] == w.resolve[q]
    {
      assert ResolvesTo(files, r, w.resolve[r]) && ResolvesTo(files, q, w.resolve[q]);
      var m: nat :| ResolveTypeName(m, files, r.from, r.name) == Resolved(w.resolve[r]);
      var k: nat :| ResolveTypeName(k, files, q.from, q.name) == Resolved(w.resolve[q]);
      DeclaredUnderItsName(m, files, r.from, r.name, w.resolve[r].decl);
      DeclaredUnderItsName(k, files, q.from, q.name, w.resolve[q].decl);
    }
  }

  // ---------------------------------------------------------------- the worklist over a package

  /** Every name a file declares or imports, as requested from that file. */
  function Mentions(files: Files): set<Request> {
    set f, n | f in files && n in files[f].decls.Keys + files[f].imports.Keys :: Request(n, f)
  }

  function ResolveIn(files: Files, r: Request): Outcome {
    ResolveTypeName(|files| + 1, files, r.from, r.name)
  }

  /** What the worklist sees of a package. */
  function PackageWorld(files: Files, globals: set<Name>): World {
    World(map r | r in Mentions(files) && ResolveIn(files, r).Resolved? :: ResolveIn(files, r).resolution, globals)
  }

  lemma PackageWorldAnswers(files: Files, globals: set<Name>, r: Request)
    requires r.from in files && ResolveIn(files, r).Resolved?
    ensures Resolve(PackageWorld(files, globals), r) == ResolveIn(files, r).resolution
  {
    if r !in Mentions(files) {
      assert r.name !in files[r.from].decls && r.name !in files[r.from].imports;
    }
  }

  lemma PackageWorldIsResolved(files: Files, globals: set<Name>)
    ensures ResolvedFrom(files, PackageWorld(files, globals))
  {
    var w := PackageWorld(files, globals);
    forall r | r in w.resolve ensures ResolvesTo(files, r, w.resolve[r]) {
      assert ResolveTypeName(|files| + 1, files, r.from, r.name) == Resolved(w.resolve[r]);
    }
  }

  lemma PackageWorldAnswersIf(files: Files, globals: set<Name>, r: Request)
    requires r.from in files
    ensures ResolveIn(files, r).Resolved? ==> Resolve(PackageWorld(files, globals), r) == ResolveIn(files, r).resolution
  {
    if ResolveIn(files, r).Resolved? {
      PackageWorldAnswers(files, globals, r);
    }
  }

  /** From a file of the package only its files are reached, so every reachable request has its answer. */
  lemma {:induction false} ReachableStaysInside(files: Files, globals: set<Name>, root: Request, c: seq<Request>)
    requires PointersName(files) && root.from in files
    requires Chain(PackageWorld(files, globals), c) && c[0] == root
    ensures var r := c[|c| - 1];
      r.from in files &&
      (ResolveIn(files, r).Resolved? ==> Resolve(PackageWorld(files, globals), r) == ResolveIn(files, r).resolution)
    decreases |c|
  {
    var w, r := PackageWorld(files, globals), c[|c| - 1];
    if |c| == 1 {
    } else {
      var front := c[..|c| - 1];
      var a := front[|front| - 1];
      assert Chain(w, front) && Refers(w, a, r);
      PackageWorldIsResolved(files, globals);
      assert ResolvesTo(files, a, w.resolve[a]);
      var frames: nat :| ResolveTypeName(frames, files, a.from, a.name) == Resolved(w.resolve[a]);
      DeclaredUnderItsName(frames, files, a.from, a.name, w.resolve[a].decl);
    }
    PackageWorldAnswersIf(files, globals, r);
  }

  /**
   * The worklist on a package: no violation exactly when the fence is unambiguous, and then whatever
   * is reachable is settled as the files resolve it. A request whose resolution does not come back
   * counts as unresolved here.
   */
  method CollectPackagePastes(files: Files, globals: set<Name>, root: Request)
    returns (c: Closure, pasted: map<Name, Pointer>)
    requires root.from in files && PointersName(files)
    ensures var w := PackageWorld(files, globals);
      && (c.violations == [] <==> Unambiguous(w, root))
      && Indexed(c, pasted) && Grounded(w, root, c) && AllTrue(w, root, c.violations)
      && Reported(w, root, c, pasted, PasteClosure.Mentions(globals, root, c.pastes))
    ensures c.violations == [] ==> forall r :: Reachable(PackageWorld(files, globals), root, r) ==>
      match ResolveIn(files, r)
      case Resolved(Local(decl)) => r.name in pasted && pasted[r.name] == decl.key
      case Resolved(External(ref)) => r.name in c.refs && c.refs[r.name] == ref
      case _ => false
  {
    var w := PackageWorld(files, globals);
    c, pasted := CollectPastes(w, root);
    PackageWorldIsResolved(files, globals);
    PackagePointersIdentify(files, w);
    if c.violations == [] {
      forall r | Reachable(w, root, r)
        ensures r.from in files && ResolveIn(files, r) == Resolved(Resolve(w, r)) && Settled(w, pasted, c.refs, r)
      {
        var chain :| Chain(w, chain) && chain[0] == root && chain[|chain| - 1] == r;
        ReachableStaysInside(files, globals, root, chain);
        ReachableIsSettled(w, root, c, pasted, chain);
        assert r in w.resolve;
      }
    }
  }
}
