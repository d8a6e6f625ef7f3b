/** The declarations a lookup walks over, as the files of the workspace resolve them. */
module TypeWorlds {
  import opened Wrappers
  import opened CatalogNames
  import opened ExportChains
  import TypePaths

  /** Every name a file declares or imports. */
  function Mentions(files: Files): set<Wanted> {
    set f, n | f in files && n in files[f].decls.Keys + files[f].imports.Keys :: (f, n)
  }

  /** The declaration a name means in a file, where re-export statements compete the first match. */
  ghost predicate MeansDecl(files: Files, at: Wanted, decl: DeclId) {
    at.0 in files && exists home :: MeansFirst(files, at.0, at.1, decl, home)
  }

  ghost function MeantDecl(files: Files, at: Wanted): (decl: DeclId)
    requires exists d :: MeansDecl(files, at, d)
    ensures MeansDecl(files, at, decl)
  {
    var d :| MeansDecl(files, at, d);
    d
  }

  /** The world of a lookup: the declarations, and each mentioned name with what it means. */
  ghost function WorldOf(files: Files, sites: map<DeclId, TypePaths.Site>): TypePaths.World {
    TypePaths.World(sites,
      map at | at in Mentions(files) && exists d :: MeansDecl(files, at, d) :: MeantDecl(files, at))
  }

  lemma MeaningIsUnique(files: Files, at: Wanted, d: DeclId, e: DeclId)
    requires MeansDecl(files, at, d) && MeansDecl(files, at, e)
    ensures d == e
  {
    var home1 :| MeansFirst(files, at.0, at.1, d, home1);
    var home2 :| MeansFirst(files, at.0, at.1, e, home2);
    if at.1 !in files[at.0].decls {
      ChosenIsUnique(files, ImportTarget(files, at.0, at.1).value, Declared(d, home1), Declared(e, home2));
    }
  }

  /** Every declaration that a file makes is among the sites. */
  ghost predicate Covers(files: Files, sites: map<DeclId, TypePaths.Site>) {
    forall f, n :: f in files && n in files[f].decls ==> files[f].decls[n] in sites
  }

  lemma MeantIsCovered(files: Files, sites: map<DeclId, TypePaths.Site>, at: Wanted, d: DeclId)
    requires Covers(files, sites) && MeansDecl(files, at, d)
    ensures d in sites && at in Mentions(files)
  {
    var home :| MeansFirst(files, at.0, at.1, d, home);
    if at.1 !in files[at.0].decls {
      var target := ImportTarget(files, at.0, at.1).value;
      ChosenIsUnique(files, target, Declared(d, home), Declared(d, home));
      var n :| Leads(files, target, (home, n)) && Declares(files, (home, n), d);
    }
  }

  /** In that world a name resolves to exactly what it means in the files. */
  lemma WorldResolvesMeaning(files: Files, sites: map<DeclId, TypePaths.Site>, file: File, name: Name, d: DeclId)
    requires Covers(files, sites)
    ensures TypePaths.Resolve(WorldOf(files, sites), file, name) == Some(d) <==> MeansDecl(files, (file, name), d)
  {
    var w := WorldOf(files, sites);
    if MeansDecl(files, (file, name), d) {
      MeantIsCovered(files, sites, (file, name), d);
      MeaningIsUnique(files, (file, name), d, w.resolve[(file, name)]);
    }
  }

  lemma MeansFirstIsMeans(files: Files, file: File, name: Name, d: DeclId)
    requires MeansDecl(files, (file, name), d)
    ensures exists home :: Means(files, file, name, d, home)
  {
    var home :| MeansFirst(files, file, name, d, home);
    if name !in files[file].decls {
      ChosenIsUnique(files, ImportTarget(files, file, name).value, Declared(d, home), Declared(d, home));
    }
    assert Means(files, file, name, d, home);
  }

  /** So the search of a lookup and its world agree, whenever the search is not aborted. */
  method ResolveForLookup(files: Files, ghost sites: map<DeclId, TypePaths.Site>, file: File, name: Name)
    returns (r: Resolution)
    requires file in files && Covers(files, sites)
    ensures !r.Unreadable? ==>
      TypePaths.Resolve(WorldOf(files, sites), file, name) == if r.Declared? then Some(r.decl) else None
  {
    r := DeclForTypeName(files, file, name);
    if r.Declared? {
      WorldResolvesMeaning(files, sites, file, name, r.decl);
    } else if r.Absent? {
      var resolved := TypePaths.Resolve(WorldOf(files, sites), file, name);
      if resolved.Some? {
        WorldResolvesMeaning(files, sites, file, name, resolved.value);
        MeansFirstIsMeans(files, file, name, resolved.value);
      }
    }
  }
}
