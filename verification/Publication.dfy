/**
 * Publishing one bundle, registry operation by registry operation. A run may stop between any two
 * operations and be started again; others may publish and move tags meanwhile.
 */
module Publication {
  import opened Wrappers

  datatype Name = Name(text: string)
  datatype Version = Version(text: string)
  datatype Tag = Tag(text: string)
  datatype Integrity = Integrity(text: string)

  datatype Package = Package(name: Name, integrity: Integrity)

  datatype Bundle = Bundle(version: Version, distTag: Tag, packages: seq<Package>)

  /** Published content never changes; tags move. */
  datatype Registry = Registry(content: map<(Name, Version), Integrity>, tags: map<(Name, Tag), Version>)

  const ENTRY := Name("@relay-harness/rlh")
  const LATEST := Tag("latest")

  /** What loading a manifest guarantees. */
  ghost predicate Loadable(b: Bundle) {
    && b.packages != []
    && forall i, j :: 0 <= i < j < |b.packages| ==> b.packages[i].name != b.packages[j].name
  }

  // ---------------------------------------------------------------- the registry

  function RemoteIntegrity(r: Registry, name: Name, version: Version): Option<Integrity> {
    if (name, version) in r.content then Some(r.content[(name, version)]) else None
  }

  function RemoteDistTag(r: Registry, name: Name, tag: Tag): Option<Version> {
    if (name, tag) in r.tags then Some(r.tags[(name, tag)]) else None
  }

  predicate KnownPackage(r: Registry, name: Name) {
    exists k :: k in r.content && k.0 == name
  }

  function SetTag(r: Registry, name: Name, tag: Tag, version: Version): Registry {
    r.(tags := r.tags[(name, tag) := version])
  }

  function AddVersion(r: Registry, p: Package, version: Version, tag: Tag): Registry {
    SetTag(r.(content := r.content[(p.name, version) := p.integrity]), p.name, tag, version)
  }

  /** Everything published stays published with the same content. */
  ghost predicate Preserves(r: Registry, r': Registry) {
    forall k :: k in r.content ==> k in r'.content && r'.content[k] == r.content[k]
  }

  // ---------------------------------------------------------------- one run, step by step

  datatype Failure =
    | DifferentIntegrity(index: nat)
    | PublishRejected(index: nat)
    | TagRejected
    | MissingPackage(index: nat)
    | IntegrityMismatch(index: nat)
    | TagMismatch(index: nat)
    | LatestMismatch

  /** The next registry operation of a run. */
  datatype Point =
    | Inspect(index: nat)
    | Upload(index: nat)
    | CheckTag(index: nat)
    | AddTag(index: nat)
    | CheckLatest
    | AddLatest
    | VerifyContent(index: nat)
    | VerifyTag(index: nat)
    | VerifyLatest
    | Published
    | Failed(failure: Failure)

  /** Done with a package, the run goes on to the next one, or to the entry package's `latest`. */
  function NextPackage(b: Bundle, i: nat): Point {
    if i + 1 < |b.packages| then Inspect(i + 1) else CheckLatest
  }

  function NextCheck(b: Bundle, i: nat): Point {
    if i + 1 < |b.packages| then VerifyContent(i + 1) else VerifyLatest
  }

  function Step(b: Bundle, r: Registry, p: Point): (Registry, Point) {
    match p
    case Inspect(i) =>
      if i >= |b.packages| then (r, CheckLatest)
      else
        var existing := RemoteIntegrity(r, b.packages[i].name, b.version);
        if existing.None? then (r, Upload(i))
        else if existing.value != b.packages[i].integrity then (r, Failed(DifferentIntegrity(i)))
        else (r, CheckTag(i))
    case Upload(i) =>
      if i >= |b.packages| || RemoteIntegrity(r, b.packages[i].name, b.version).Some?
      then (r, Failed(PublishRejected(i)))
      else (AddVersion(r, b.packages[i], b.version, b.distTag), CheckTag(i))
    case CheckTag(i) =>
      if i >= |b.packages| then (r, Failed(TagRejected))
      else if RemoteDistTag(r, b.packages[i].name, b.distTag) == Some(b.version) then (r, NextPackage(b, i))
      else (r, AddTag(i))
    case AddTag(i) =>
      if i >= |b.packages| || RemoteIntegrity(r, b.packages[i].name, b.version).None? then (r, Failed(TagRejected))
      else (SetTag(r, b.packages[i].name, b.distTag, b.version), NextPackage(b, i))
    case CheckLatest =>
      if !KnownPackage(r, ENTRY) then (r, Failed(TagRejected))
      else if RemoteDistTag(r, ENTRY, LATEST) == Some(b.version) then (r, VerifyContent(0))
      else (r, AddLatest)
    case AddLatest =>
      if RemoteIntegrity(r, ENTRY, b.version).None? then (r, Failed(TagRejected))
      else (SetTag(r, ENTRY, LATEST, b.version), VerifyContent(0))
    case VerifyContent(i) =>
      if i >= |b.packages| then (r, VerifyLatest)
      else
        var integrity := RemoteIntegrity(r, b.packages[i].name, b.version);
        if integrity.None? then (r, Failed(MissingPackage(i)))
        else if integrity.value != b.packages[i].integrity then (r, Failed(IntegrityMismatch(i)))
        else (r, VerifyTag(i))
    case VerifyTag(i) =>
      if i >= |b.packages| || RemoteDistTag(r, b.packages[i].name, b.distTag) != Some(b.version)
      then (r, Failed(TagMismatch(i)))
      else (r, NextCheck(b, i))
    case VerifyLatest =>
      if RemoteDistTag(r, ENTRY, LATEST) == Some(b.version) then (r, Published) else (r, Failed(LatestMismatch))
    case Published => (r, Published)
    case Failed(_) => (r, p)
  }

  /** Whether this step writes the entry package's `latest` tag. */
  predicate MovesLatest(b: Bundle, r: Registry, p: Point) {
    match p
    case Upload(i) =>
      i < |b.packages| && b.packages[i].name == ENTRY && b.distTag == LATEST && Step(b, r, p).1.CheckTag?
    case AddTag(i) => i < |b.packages| && b.packages[i].name == ENTRY && b.distTag == LATEST && !Step(b, r, p).1.Failed?
    case AddLatest => Step(b, r, p).1.VerifyContent?
    case _ => false
  }

  ghost predicate Present(b: Bundle, r: Registry, i: nat)
    requires i < |b.packages|
  {
    RemoteIntegrity(r, b.packages[i].name, b.version) == Some(b.packages[i].integrity)
  }

  ghost predicate PresentUpTo(b: Bundle, r: Registry, n: nat) {
    forall i :: 0 <= i < n && i < |b.packages| ==> Present(b, r, i)
  }

  ghost predicate AllPresent(b: Bundle, r: Registry) {
    PresentUpTo(b, r, |b.packages|)
  }

  // ---------------------------------------------------------------- histories

  /** What may happen next: this run's operation, a stop and a new run, or somebody else's change. */
  datatype Move = OurStep | Restart | Others(registry: Registry)

  /** `moved` records whether this code has written the entry package's `latest` tag. */
  datatype System = System(registry: Registry, point: Point, moved: bool)

  ghost predicate Possible(s: System, m: Move) {
    m.Others? ==> Preserves(s.registry, m.registry)
  }

  ghost function Next(b: Bundle, s: System, m: Move): System {
    match m
    case OurStep =>
      var (r, p) := Step(b, s.registry, s.point);
      System(r, p, s.moved || MovesLatest(b, s.registry, s.point))
    case Restart => s.(point := Inspect(0))
    case Others(r) => s.(registry := r)
  }

  ghost function After(b: Bundle, r: Registry, moves: seq<Move>): System {
    if moves == [] then System(r, Inspect(0), false)
    else Next(b, After(b, r, moves[..|moves| - 1]), moves[|moves| - 1])
  }

  ghost predicate History(b: Bundle, r: Registry, moves: seq<Move>) {
    moves == [] ||
    var before := moves[..|moves| - 1];
    History(b, r, before) && Possible(After(b, r, before), moves[|moves| - 1])
  }

  // ---------------------------------------------------------------- safety

  /** How much of the bundle a run has seen to be present when it stands at a point. */
  function Established(b: Bundle, p: Point): nat {
    match p
    case Inspect(i) => i
    case Upload(i) => i
    case CheckTag(i) => i + 1
    case AddTag(i) => i + 1
    case Failed(_) => 0
    case _ => |b.packages|
  }

  /** A manifest that tags its packages `latest` must name the entry package last. */
  predicate TagsEntryLast(b: Bundle) {
    b.distTag == LATEST ==> forall i :: 0 <= i < |b.packages| - 1 ==> b.packages[i].name != ENTRY
  }

  ghost predicate Safe(b: Bundle, s: System) {
    && PresentUpTo(b, s.registry, Established(b, s.point))
    && (s.moved ==> AllPresent(b, s.registry))
  }

  lemma PresenceIsKept(b: Bundle, r: Registry, r': Registry, n: nat)
    requires Preserves(r, r') && PresentUpTo(b, r, n)
    ensures PresentUpTo(b, r', n)
  {
    forall i | 0 <= i < n && i < |b.packages| ensures Present(b, r', i) {
      assert Present(b, r, i);
    }
  }

  lemma StepPreserves(b: Bundle, r: Registry, p: Point)
    ensures Preserves(r, Step(b, r, p).0)
  {
  }

  lemma StepEstablishes(b: Bundle, r: Registry, p: Point)
    requires PresentUpTo(b, r, Established(b, p))
    ensures PresentUpTo(b, Step(b, r, p).0, Established(b, Step(b, r, p).1))
  {
    StepPreserves(b, r, p);
    var (r', p') := Step(b, r, p);
    PresenceIsKept(b, r, r', Established(b, p));
  }

  lemma MoveKeepsSafe(b: Bundle, s: System, m: Move)
    requires TagsEntryLast(b) && Safe(b, s) && Possible(s, m)
    ensures Safe(b, Next(b, s, m))
  {
    var s' := Next(b, s, m);
    assert Preserves(s.registry, s'.registry) by {
      if m.OurStep? { StepPreserves(b, s.registry, s.point); }
    }
    if s.moved {
      PresenceIsKept(b, s.registry, s'.registry, |b.packages|);
    }
    match m
    case OurStep =>
      StepEstablishes(b, s.registry, s.point);
      if MovesLatest(b, s.registry, s.point) {
        assert s.point.AddLatest? || s.point.index == |b.packages| - 1;
        PresenceIsKept(b, s.registry, s'.registry, Established(b, s.point));
        if s.point.Upload? {
          assert Present(b, s'.registry, s.point.index);
        }
      }
    case Restart =>
    case Others(r) =>
      PresenceIsKept(b, s.registry, r, Established(b, s.point));
  }

  /**
   * Over every history of operations, stops, re-runs and other publishers: once this code has
   * moved the entry package's `latest`, every package of the bundle is present with its integrity.
   */
  lemma {:induction false} LatestMovesLast(b: Bundle, r: Registry, moves: seq<Move>)
    requires TagsEntryLast(b) && History(b, r, moves)
    ensures Safe(b, After(b, r, moves))
  {
    if moves == [] {
    } else {
      var before := moves[..|moves| - 1];
      LatestMovesLast(b, r, before);
      MoveKeepsSafe(b, After(b, r, before), moves[|moves| - 1]);
    }
  }

  /** No history replaces or removes published content. */
  lemma {:induction false} ContentIsImmutable(b: Bundle, r: Registry, moves: seq<Move>)
    requires History(b, r, moves)
    ensures Preserves(r, After(b, r, moves).registry)
  {
    if moves == [] {
    } else {
      var before := moves[..|moves| - 1];
      ContentIsImmutable(b, r, before);
      var s := After(b, r, before);
      StepPreserves(b, s.registry, s.point);
    }
  }
}
