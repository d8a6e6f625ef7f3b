/** Finding the declaration an exported name denotes, through re-export chains that may be cyclic. */
module ExportChains {
  import opened Wrappers
  import opened CatalogNames

  /** A name looked for in a file. */
  type Wanted = (File, Name)

  /** `export * from` or `export { source as exported } from`, with the file it names. */
  datatype Export = Star(target: File) | Named(target: File, names: seq<(Name, Name)>)

  /** Where an imported name comes from. */
  datatype Origin = Relative(file: File) | Package(entry: File) | External

  datatype Import = Import(imported: Name, origin: Origin)

  datatype Source = Source(decls: map<Name, DeclId>, exports: seq<Export>, imports: map<Name, Import>)

  /** The readable source files. */
  type Files = map<File, Source>

  datatype Resolution = Declared(decl: DeclId, file: File) | Absent | Unreadable(file: File)

  /** What the first matching `exported` entry renames, if any entry matches. */
  function SourceNamed(names: seq<(Name, Name)>, name: Name): (r: Option<Name>)
    ensures r.Some? ==> (name, r.value) in names
  {
    if names == [] then None
    else if names[0].0 == name then Some(names[0].1)
    else SourceNamed(names[1..], name)
  }

  /** Where an export statement sends a wanted name. */
  function Forward(e: Export, name: Name): Option<Wanted> {
    match e
    case Star(target) => Some((target, name))
    case Named(target, names) =>
      var source := SourceNamed(names, name);
      if source.Some? then Some((target, source.value)) else None
  }

  /** The first entry that exports the name, and what that name is called in the target. */
  ghost predicate Renames(names: seq<(Name, Name)>, name: Name, source: Name) {
    exists j :: 0 <= j < |names| && names[j] == (name, source) && forall i :: 0 <= i < j ==> names[i].0 != name
  }

  /** A star keeps the name; a list of names provides those it lists, under their source names. */
  ghost predicate Provides(e: Export, name: Name, to: Wanted) {
    match e
    case Star(target) => to == (target, name)
    case Named(target, names) => to.0 == target && Renames(names, name, to.1)
  }

  /** `to` is one re-export away from `from`, and `from` does not declare its name itself. */
  ghost predicate Forwards(files: Files, from: Wanted, to: Wanted) {
    && from.0 in files && from.1 !in files[from.0].decls
    && exists i :: 0 <= i < |files[from.0].exports| && Provides(files[from.0].exports[i], from.1, to)
  }

  lemma RenamesBehind(names: seq<(Name, Name)>, name: Name, source: Name)
    requires names != []
    ensures Renames(names, name, source) <==>
      if names[0].0 == name then names[0].1 == source else Renames(names[1..], name, source)
  {
    var later := names[1..];
    if names[0].0 != name && Renames(later, name, source) {
      var j :| 0 <= j < |later| && later[j] == (name, source) && forall i :: 0 <= i < j ==> later[i].0 != name;
      assert names[j + 1] == (name, source);
      assert forall i :: 0 < i < j + 1 ==> names[i] == later[i - 1];
    }
    if names[0].0 != name && Renames(names, name, source) {
      var j :| 0 <= j < |names| && names[j] == (name, source) && forall i :: 0 <= i < j ==> names[i].0 != name;
      assert later[j - 1] == (name, source);
    }
  }

  lemma {:induction false} SourceNamedIsFirst(names: seq<(Name, Name)>, name: Name, source: Name)
    ensures SourceNamed(names, name) == Some(source) <==> Renames(names, name, source)
  {
    if names == [] {
    } else {
      SourceNamedIsFirst(names[1..], name, source);
      RenamesBehind(names, name, source);
    }
  }

  /** `Forward` computes what an export statement provides. */
  lemma ForwardProvides(e: Export, name: Name)
    ensures forall to :: Forward(e, name) == Some(to) <==> Provides(e, name, to)
  {
    if e.Named? {
      forall source ensures SourceNamed(e.names, name) == Some(source) <==> Renames(e.names, name, source) {
        SourceNamedIsFirst(e.names, name, source);
      }
    }
  }

  ghost predicate Chain(files: Files, c: seq<Wanted>) {
    c != [] && forall i, j :: 0 <= i < j < |c| && j == i + 1 ==> Forwards(files, c[i], c[j])
  }

  ghost predicate Leads(files: Files, from: Wanted, to: Wanted) {
    exists c :: Chain(files, c) && c[0] == from && c[|c| - 1] == to
  }

  ghost predicate Declares(files: Files, at: Wanted, decl: DeclId) {
    at.0 in files && at.1 in files[at.0].decls && files[at.0].decls[at.1] == decl
  }

  /** Some chain of re-exports ends where `decl` is declared, in file `at`. */
  ghost predicate Denotes(files: Files, from: Wanted, decl: DeclId, at: File) {
    exists n :: Leads(files, from, (at, n)) && Declares(files, (at, n), decl)
  }

  /** The search goes no further here: the file declares the name, or cannot be read, which aborts it. */
  ghost predicate IsEnd(files: Files, at: Wanted) {
    at.0 !in files || at.1 in files[at.0].decls
  }

  /** A chain from `from` that meets none of the requests in `avoid` comes to an end. */
  ghost predicate Ends(files: Files, avoid: set<Wanted>, from: Wanted) {
    exists c :: Chain(files, c) && c[0] == from && (forall k :: k in c ==> k !in avoid) && IsEnd(files, c[|c| - 1])
  }

  /**
   * First match, in at most `h` hops: an unreadable file aborts; a file's own declaration wins;
   * otherwise the first export statement beyond which any chain comes to an end decides, chains
   * through a request under way left aside.
   */
  ghost predicate Picks(h: nat, files: Files, avoid: set<Wanted>, from: Wanted, r: Resolution)
    decreases h, 1
  {
    && from !in avoid
    && if from.0 !in files then r == Unreadable(from.0)
       else if from.1 in files[from.0].decls then r == Declared(files[from.0].decls[from.1], from.0)
       else h > 0 && exists i, next :: PicksExport(h, files, avoid, from, r, i, next)
  }

  ghost predicate PicksExport(h: nat, files: Files, avoid: set<Wanted>, from: Wanted, r: Resolution, i: int,
          next: Wanted)
    requires h > 0 && from.0 in files
    decreases h, 0
  {
    var exports := files[from.0].exports;
    && 0 <= i < |exports| && Provides(exports[i], from.1, next)
    && Picks(h - 1, files, avoid + {from}, next, r)
    && forall j, other :: 0 <= j < i && Provides(exports[j], from.1, other) ==> !Ends(files, avoid + {from}, other)
  }

  /** What first-match search settles on: a declaration, or the unreadable file that aborts it. */
  ghost predicate Chosen(files: Files, from: Wanted, r: Resolution) {
    exists h: nat :: Picks(h, files, {}, from, r)
  }

  /** Some chain of re-exports ends in a file that cannot be read. */
  ghost predicate RunsInto(files: Files, from: Wanted, file: File) {
    file !in files && exists n :: Leads(files, from, (file, n))
  }

  lemma EndsThrough(files: Files, avoid: set<Wanted>, from: Wanted, next: Wanted)
    requires from !in avoid && Forwards(files, from, next)
    requires Ends(files, avoid + {from}, next)
    ensures Ends(files, avoid, from)
  {
    var c :| Chain(files, c) && c[0] == next && (forall k :: k in c ==> k !in avoid + {from}) &&
      IsEnd(files, c[|c| - 1]);
    assert Chain(files, [from] + c);
    assert ([from] + c)[|c|] == c[|c| - 1];
  }

  lemma LeadsThrough(files: Files, from: Wanted, next: Wanted, to: Wanted)
    requires Forwards(files, from, next) && Leads(files, next, to)
    ensures Leads(files, from, to)
  {
    var c :| Chain(files, c) && c[0] == next && c[|c| - 1] == to;
    assert Chain(files, [from] + c);
  }

  lemma DenotesThrough(files: Files, from: Wanted, next: Wanted, decl: DeclId, at: File)
    requires Forwards(files, from, next) && Denotes(files, next, decl, at)
    ensures Denotes(files, from, decl, at)
  {
    var n :| Leads(files, next, (at, n)) && Declares(files, (at, n), decl);
    LeadsThrough(files, from, next, (at, n));
  }

  lemma LeadsToItself(files: Files, at: Wanted)
    ensures Leads(files, at, at)
  {
    assert Chain(files, [at]);
  }

  /** What is picked lies at the end of a chain. */
  lemma {:induction false} PickedIsEnd(h: nat, files: Files, avoid: set<Wanted>, from: Wanted, r: Resolution)
    requires Picks(h, files, avoid, from, r)
    ensures !r.Absent? && Ends(files, avoid, from)
    ensures r.Declared? ==> Denotes(files, from, r.decl, r.file)
    ensures r.Unreadable? ==> RunsInto(files, from, r.file)
  {
    if IsEnd(files, from) {
      LeadsToItself(files, from);
      assert Chain(files, [from]);
    } else {
      var i, next :| PicksExport(h, files, avoid, from, r, i, next);
      PickedIsEnd(h - 1, files, avoid + {from}, next, r);
      EndsThrough(files, avoid, from, next);
      if r.Declared? {
        DenotesThrough(files, from, next, r.decl, r.file);
      } else {
        var m :| Leads(files, next, (r.file, m));
        LeadsThrough(files, from, next, (r.file, m));
      }
    }
  }

  lemma {:induction false} PickIsUnique(h: nat, k: nat, files: Files, avoid: set<Wanted>, from: Wanted, r: Resolution,
          q: Resolution)
    requires Picks(h, files, avoid, from, r) && Picks(k, files, avoid, from, q)
    ensures r == q
    decreases h
  {
    if IsEnd(files, from) {
    } else {
      var i, next :| PicksExport(h, files, avoid, from, r, i, next);
      var j, other :| PicksExport(k, files, avoid, from, q, j, other);
      PickedIsEnd(h - 1, files, avoid + {from}, next, r);
      PickedIsEnd(k - 1, files, avoid + {from}, other, q);
      assert i == j;
      ForwardProvides(files[from.0].exports[i], from.1);
      PickIsUnique(h - 1, k - 1, files, avoid + {from}, next, r, q);
    }
  }

  /** First match settles on at most one thing: a declaration the name denotes, or an unreadable file. */
  lemma ChosenIsUnique(files: Files, from: Wanted, r: Resolution, q: Resolution)
    requires Chosen(files, from, r) && Chosen(files, from, q)
    ensures r == q && !r.Absent? && Ends(files, {}, from)
    ensures r.Declared? ==> Denotes(files, from, r.decl, r.file)
    ensures r.Unreadable? ==> RunsInto(files, from, r.file)
  {
    var h: nat :| Picks(h, files, {}, from, r);
    var k: nat :| Picks(k, files, {}, from, q);
    PickIsUnique(h, k, files, {}, from, r, q);
    PickedIsEnd(h, files, {}, from, r);
  }

  lemma FirstForward(files: Files, c: seq<Wanted>)
    requires Chain(files, c) && |c| > 1
    ensures Forwards(files, c[0], c[1])
  {
  }

  lemma UnreadableDenotesNothing(files: Files, from: Wanted)
    requires from.0 !in files
    ensures forall decl, at :: !Denotes(files, from, decl, at)
  {
    forall decl, at | Denotes(files, from, decl, at) ensures false {
      var n :| Leads(files, from, (at, n)) && Declares(files, (at, n), decl);
      var c :| Chain(files, c) && c[0] == from && c[|c| - 1] == (at, n);
      if |c| > 1 {
        FirstForward(files, c);
      }
    }
  }

  /** Searched and left behind: nothing declared there, and every forward has been seen. */
  ghost predicate Exhausted(files: Files, seen: set<Wanted>, at: Wanted) {
    && at.0 in files && at.1 !in files[at.0].decls
    && forall to :: Forwards(files, at, to) ==> to in seen
  }

  /** A set of exhausted requests contains everything its members lead to. */
  lemma {:induction false} ExhaustedIsClosed(files: Files, seen: set<Wanted>, c: seq<Wanted>, n: nat)
    requires forall k :: k in seen ==> Exhausted(files, seen, k)
    requires Chain(files, c) && c[0] in seen && n < |c|
    ensures c[n] in seen
  {
    if n == 0 {
    } else {
      ExhaustedIsClosed(files, seen, c, n - 1);
      assert Forwards(files, c[n - 1], c[n]);
    }
  }

  lemma NothingDeclaredBeyond(files: Files, seen: set<Wanted>, from: Wanted)
    requires forall k :: k in seen ==> Exhausted(files, seen, k)
    requires from in seen
    ensures forall decl, at :: !Denotes(files, from, decl, at)
  {
    forall decl, at | Denotes(files, from, decl, at) ensures false {
      var n :| Leads(files, from, (at, n)) && Declares(files, (at, n), decl);
      var c :| Chain(files, c) && c[0] == from && c[|c| - 1] == (at, n);
      ExhaustedIsClosed(files, seen, c, |c| - 1);
    }
  }

  lemma {:induction false} AvoidingStaysSeen(files: Files, seen: set<Wanted>, active: set<Wanted>, c: seq<Wanted>,
          n: nat)
    requires forall k :: k in seen && k !in active ==> Exhausted(files, seen, k)
    requires Chain(files, c) && c[0] in seen && (forall k :: k in c ==> k !in active) && n < |c|
    ensures c[n] in seen
  {
    if n == 0 {
    } else {
      AvoidingStaysSeen(files, seen, active, c, n - 1);
      assert Exhausted(files, seen, c[n - 1]);
      assert Forwards(files, c[n - 1], c[n]);
    }
  }

  /** Beyond a request seen and not under way, nothing is declared without passing one under way. */
  lemma NothingEndsBeyond(files: Files, seen: set<Wanted>, active: set<Wanted>, from: Wanted)
    requires forall k :: k in seen && k !in active ==> Exhausted(files, seen, k)
    requires from in seen
    ensures !Ends(files, active, from)
  {
    if Ends(files, active, from) {
      var c :| Chain(files, c) && c[0] == from && (forall k :: k in c ==> k !in active) && IsEnd(files, c[|c| - 1]);
      AvoidingStaysSeen(files, seen, active, c, |c| - 1);
    }
  }

  /** The finitely many requests a search for `name` can meet. */
  ghost function Names(files: Files): set<Name> {
    set f, i, j | f in files && 0 <= i < |files[f].exports| && files[f].exports[i].Named? &&
      0 <= j < |files[f].exports[i].names| :: files[f].exports[i].names[j].1
  }

  ghost function Requests(files: Files, names: set<Name>): set<Wanted> {
    set f, n | f in files && n in names :: (f, n)
  }

  lemma ForwardStaysNamed(files: Files, names: set<Name>, file: File, i: nat, name: Name)
    requires Names(files) <= names && name in names
    requires file in files && i < |files[file].exports|
    requires Forward(files[file].exports[i], name).Some?
    ensures Forward(files[file].exports[i], name).value.1 in names
  {
    var e := files[file].exports[i];
    ForwardProvides(e, name);
    if e.Named? {
      var source := SourceNamed(e.names, name).value;
      var j :| 0 <= j < |e.names| && e.names[j] == (name, source);
      assert files[file].exports[i].names[j].1 in Names(files);
    }
  }

  /** Whatever the first `n` export statements provide has been seen. */
  ghost predicate SeenUpTo(exports: seq<Export>, name: Name, n: nat, seen: set<Wanted>) {
    forall j, next :: 0 <= j < n && j < |exports| && Provides(exports[j], name, next) ==> next in seen
  }

  lemma EarlierDoNotEnd(files: Files, seen: set<Wanted>, active: set<Wanted>, exports: seq<Export>, name: Name, n: nat)
    requires forall k :: k in seen && k !in active ==> Exhausted(files, seen, k)
    requires n <= |exports| && SeenUpTo(exports, name, n, seen)
    ensures forall j, next :: 0 <= j < n && Provides(exports[j], name, next) ==> !Ends(files, active, next)
  {
    forall j, next | 0 <= j < n && Provides(exports[j], name, next) ensures !Ends(files, active, next) {
      NothingEndsBeyond(files, seen, active, next);
    }
  }

  /** Depth-first search over requests; a request met again is answered `Absent` at once. */
  class ExportSearch {
    const files: Files
    ghost const names: set<Name>
    var seen: set<Wanted>

    constructor (files: Files, name: Name)
      ensures this.files == files && names == Names(files) + {name} && seen == {}
    {
      this.files := files;
      this.names := Names(files) + {name};
      seen := {};
    }

    /** `active` holds the requests under way: those of the enclosing calls. */
    method Find(file: File, name: Name, ghost active: set<Wanted>) returns (r: Resolution)
      requires file in files && Names(files) <= names && name in names
      requires forall k :: k in active ==> k.0 in files
      requires active <= seen && forall k :: k in seen && k !in active ==> Exhausted(files, seen, k)
      modifies this
      ensures old(seen) <= seen
      ensures r.Absent? ==> (file, name) in seen
      ensures r.Absent? ==> forall k :: k in seen && k !in active ==> Exhausted(files, seen, k)
      ensures !r.Absent? ==> exists h: nat :: Picks(h, files, active, (file, name), r)
      decreases Requests(files, names) - seen
    {
      if (file, name) in seen {
        return Absent;
      }
      ghost var before, active' := seen, active + {(file, name)};
      seen := seen + {(file, name)};
      var source := files[file];
      if name in source.decls {
        r := Declared(source.decls[name], file);
        assert Picks(0, files, active, (file, name), r);
        return;
      }
      for n := 0 to |source.exports|
        invariant before + {(file, name)} <= seen
        invariant forall k :: k in seen && k !in active' ==> Exhausted(files, seen, k)
        invariant SeenUpTo(source.exports, name, n, seen)
      {
        var next := Forward(source.exports[n], name);
        ForwardProvides(source.exports[n], name);
        if next.Some? {
          assert Provides(source.exports[n], name, next.value);
          assert Forwards(files, (file, name), next.value);
          EarlierDoNotEnd(files, seen, active', source.exports, name, n);
          if next.value.0 !in files {
            r := Unreadable(next.value.0);
            assert Picks(0, files, active', next.value, r);
            assert PicksExport(1, files, active, (file, name), r, n, next.value);
            assert Picks(1, files, active, (file, name), r);
            return;
          }
          ForwardStaysNamed(files, names, file, n, name);
          assert (file, name) in Requests(files, names) - before;
          r := Find(next.value.0, next.value.1, active');
          if !r.Absent? {
            ghost var h: nat :| Picks(h, files, active', next.value, r);
            assert PicksExport(h + 1, files, active, (file, name), r, n, next.value);
            assert Picks(h + 1, files, active, (file, name), r);
            return;
          }
        }
      }
      r := Absent;
    }
  }

  /** The re-export search of one lookup, starting with nothing seen. */
  method FindExportedTypeDecl(files: Files, file: File, name: Name) returns (r: Resolution)
    requires file in files
    ensures forall q :: Chosen(files, (file, name), q) <==> q == r && !r.Absent?
    ensures r.Absent? <==> !Ends(files, {}, (file, name))
    ensures r.Declared? ==> Denotes(files, (file, name), r.decl, r.file)
    ensures r.Absent? ==> forall decl, at :: !Denotes(files, (file, name), decl, at)
    ensures r.Unreadable? ==> RunsInto(files, (file, name), r.file)
  {
    var search := new ExportSearch(files, name);
    r := search.Find(file, name, {});
    if r.Absent? {
      NothingDeclaredBeyond(files, search.seen, (file, name));
      NothingEndsBeyond(files, search.seen, {}, (file, name));
    } else {
      assert Chosen(files, (file, name), r);
    }
    forall q | Chosen(files, (file, name), q) ensures q == r && !r.Absent? {
      if !r.Absent? {
        ChosenIsUnique(files, (file, name), q, r);
      } else {
        ChosenIsUnique(files, (file, name), q, q);
      }
    }
    if !r.Absent? {
      ChosenIsUnique(files, (file, name), r, r);
    }
  }

  function ImportedFile(i: Import): Option<File> {
    match i.origin
    case Relative(file) => Some(file)
    case Package(entry) => Some(entry)
    case External => None
  }

  /** Where the import of a name sends a lookup. */
  function ImportTarget(files: Files, file: File, name: Name): Option<Wanted>
    requires file in files
  {
    if name !in files[file].imports then None
    else
      var i := files[file].imports[name];
      if ImportedFile(i).None? then None else Some((ImportedFile(i).value, i.imported))
  }

  /** What a type name used in a file denotes: its own declaration, else what its import leads to. */
  ghost predicate Means(files: Files, file: File, name: Name, decl: DeclId, at: File)
    requires file in files
  {
    if name in files[file].decls then files[file].decls[name] == decl && at == file
    else ImportTarget(files, file, name).Some? && Denotes(files, ImportTarget(files, file, name).value, decl, at)
  }

  /** The same, where several export statements could provide the name: the first match. */
  ghost predicate MeansFirst(files: Files, file: File, name: Name, decl: DeclId, at: File)
    requires file in files
  {
    if name in files[file].decls then files[file].decls[name] == decl && at == file
    else
      && ImportTarget(files, file, name).Some?
      && Chosen(files, ImportTarget(files, file, name).value, Declared(decl, at))
  }

  /** First match settles on `r`, or there is nothing to settle on. */
  ghost predicate Settles(files: Files, from: Wanted, r: Resolution) {
    if Ends(files, {}, from) then Chosen(files, from, r) else r == Absent
  }

  /**
   * What a lookup of a name is answered: its own declaration; nothing for a name that is not imported,
   * is external, or comes from a package without a readable entry; else what first match settles on.
   */
  ghost predicate IsAnswer(files: Files, file: File, name: Name, r: Resolution)
    requires file in files
  {
    var source := files[file];
    if name in source.decls then r == Declared(source.decls[name], file)
    else if name !in source.imports || source.imports[name].origin.External? then r == Absent
    else
      var imported := source.imports[name];
      match imported.origin
      case Relative(target) => Settles(files, (target, imported.imported), r)
      case Package(entry) => if entry in files then Settles(files, (entry, imported.imported), r) else r == Absent
  }

  /** `Absent` here is out of reach: an external name, or a workspace package without an entry. */
  method DeclForTypeName(files: Files, file: File, name: Name) returns (r: Resolution)
    requires file in files
    ensures IsAnswer(files, file, name, r)
    ensures r.Declared? ==> MeansFirst(files, file, name, r.decl, r.file) && Means(files, file, name, r.decl, r.file)
    ensures r.Absent? ==> forall decl, at :: !Means(files, file, name, decl, at)
    ensures r.Unreadable? ==>
      && name !in files[file].decls && ImportTarget(files, file, name).Some?
      && Chosen(files, ImportTarget(files, file, name).value, r)
  {
    var source := files[file];
    if name in source.decls {
      return Declared(source.decls[name], file);
    }
    if name !in source.imports {
      return Absent;
    }
    var imported := source.imports[name];
    match imported.origin {
      case External =>
        return Absent;
      case Relative(target) =>
        if target !in files {
          r := Unreadable(target);
          assert Picks(0, files, {}, (target, imported.imported), r);
          ChosenIsUnique(files, (target, imported.imported), r, r);
          return;
        }
        r := FindExportedTypeDecl(files, target, imported.imported);
      case Package(entry) =>
        if entry !in files {
          UnreadableDenotesNothing(files, (entry, imported.imported));
          return Absent;
        }
        r := FindExportedTypeDecl(files, entry, imported.imported);
    }
  }
}
