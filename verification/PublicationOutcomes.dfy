/** What the outcome of a run says: which package clashes, is missing or is mistagged, and that it is the first. */
module PublicationOutcomes {
  import opened Wrappers
  import opened Publication
  import opened PublicationRuns

  /** The package is published with another integrity. */
  ghost predicate Clashes(b: Bundle, r: Registry, i: nat)
    requires i < |b.packages|
  {
    RemoteIntegrity(r, b.packages[i].name, b.version).Some? && !Present(b, r, i)
  }

  // ---------------------------------------------------------------- what a failure says when it happens

  /** What the registry shows at the operation that fails. */
  ghost predicate Shows(b: Bundle, r: Registry, failure: Failure) {
    match failure
    case DifferentIntegrity(i) => i < |b.packages| && Clashes(b, r, i)
    case PublishRejected(i) => i < |b.packages| && RemoteIntegrity(r, b.packages[i].name, b.version).Some?
    case MissingPackage(i) => i < |b.packages| && RemoteIntegrity(r, b.packages[i].name, b.version).None?
    case IntegrityMismatch(i) => i < |b.packages| && Clashes(b, r, i)
    case TagMismatch(i) => i < |b.packages| && !Tagged(b, r, i)
    case LatestMismatch => RemoteDistTag(r, ENTRY, LATEST) != Some(b.version)
    case TagRejected =>
      || RemoteIntegrity(r, ENTRY, b.version).None?
      || exists i :: 0 <= i < |b.packages| && RemoteIntegrity(r, b.packages[i].name, b.version).None?
  }

  lemma UnknownHasNoVersion(r: Registry, name: Name, version: Version)
    ensures !KnownPackage(r, name) ==> RemoteIntegrity(r, name, version).None?
  {
    if RemoteIntegrity(r, name, version).Some? {
      assert (name, version) in r.content && (name, version).0 == name;
    }
  }

  /** Whoever else acts in between: a failure tells the truth about the registry it met. */
  lemma FailureTellsTruth(b: Bundle, r: Registry, p: Point, failure: Failure)
    requires !Ended(p) && Step(b, r, p).1 == Failed(failure)
    requires (p.Upload? || p.CheckTag? || p.AddTag? || p.VerifyTag?) ==> p.index < |b.packages|
    ensures Shows(b, r, failure)
  {
    if p.CheckLatest? {
      UnknownHasNoVersion(r, ENTRY, b.version);
    }
  }

  // ---------------------------------------------------------------- the read-only pass

  /** The first package that is not published and tagged as the bundle says. */
  ghost predicate FirstUndone(b: Bundle, r: Registry, i: nat) {
    i < |b.packages| && DoneUpTo(b, r, i) && !(Present(b, r, i) && Tagged(b, r, i))
  }

  /** The verdict of the read-only pass. */
  ghost predicate Verdict(b: Bundle, r: Registry, p: Point) {
    match p
    case Published => Complete(b, r)
    case Failed(MissingPackage(i)) =>
      FirstUndone(b, r, i) && RemoteIntegrity(r, b.packages[i].name, b.version).None?
    case Failed(IntegrityMismatch(i)) => FirstUndone(b, r, i) && Clashes(b, r, i)
    case Failed(TagMismatch(i)) => FirstUndone(b, r, i) && Present(b, r, i)
    case Failed(LatestMismatch) =>
      DoneUpTo(b, r, |b.packages|) && RemoteDistTag(r, ENTRY, LATEST) != Some(b.version)
    case _ => false
  }

  lemma {:induction false} VerdictFrom(b: Bundle, r: Registry, i: nat)
    requires i < |b.packages| && DoneUpTo(b, r, i)
    ensures RunToEnd(b, r, VerifyContent(i)).0 == r && Verdict(b, r, RunToEnd(b, r, VerifyContent(i)).1)
    decreases |b.packages| - i
  {
    Unfold(b, r, VerifyContent(i));
    if Present(b, r, i) {
      Unfold(b, r, VerifyTag(i));
      if Tagged(b, r, i) {
        if i + 1 < |b.packages| {
          VerdictFrom(b, r, i + 1);
        } else {
          Unfold(b, r, VerifyLatest);
        }
      }
    }
  }

  lemma VerdictIsUnique(b: Bundle, r: Registry, p: Point, q: Point)
    requires Verdict(b, r, p) && Verdict(b, r, q)
    ensures p == q
  {
  }

  /**
   * Verifying changes nothing. It succeeds exactly on a complete bundle, and otherwise names the
   * first package that is missing, differs or is mistagged, or else the entry package's `latest`.
   */
  lemma VerifyIsExact(b: Bundle, r: Registry, p: Point)
    requires b.packages != []
    ensures RunToEnd(b, r, VerifyContent(0)).0 == r
    ensures RunToEnd(b, r, VerifyContent(0)).1 == p <==> Verdict(b, r, p)
  {
    VerdictFrom(b, r, 0);
    var q := RunToEnd(b, r, VerifyContent(0)).1;
    if Verdict(b, r, p) {
      VerdictIsUnique(b, r, p, q);
    }
  }

  // ---------------------------------------------------------------- publishing

  ghost predicate FirstClash(b: Bundle, r: Registry, i: nat) {
    i < |b.packages| && Clashes(b, r, i) && forall j :: 0 <= j < i ==> !Clashes(b, r, j)
  }

  /** Nothing changed for the packages from `n` on. */
  ghost predicate SameFrom(b: Bundle, r: Registry, r': Registry, n: nat) {
    forall j :: n <= j < |b.packages| ==>
      RemoteIntegrity(r', b.packages[j].name, b.version) == RemoteIntegrity(r, b.packages[j].name, b.version)
  }

  lemma TagsOne(b: Bundle, r: Registry, i: nat) returns (r': Registry)
    requires Loadable(b) && i < |b.packages| && DoneUpTo(b, r, i) && Present(b, r, i)
    ensures RunToEnd(b, r, CheckTag(i)) == RunToEnd(b, r', NextPackage(b, i))
    ensures DoneUpTo(b, r', i + 1) && SameFrom(b, r, r', i + 1)
  {
    Unfold(b, r, CheckTag(i));
    if Tagged(b, r, i) {
      r' := r;
    } else {
      Unfold(b, r, AddTag(i));
      r' := SetTag(r, b.packages[i].name, b.distTag, b.version);
      forall j | 0 <= j < i ensures Present(b, r', j) && Tagged(b, r', j) {
        assert Present(b, r, j) && Tagged(b, r, j);
      }
    }
  }

  lemma UploadsOne(b: Bundle, r: Registry, i: nat) returns (r': Registry)
    requires Loadable(b) && i < |b.packages| && DoneUpTo(b, r, i)
    requires RemoteIntegrity(r, b.packages[i].name, b.version).None?
    ensures RunToEnd(b, r, Inspect(i)) == RunToEnd(b, r', CheckTag(i))
    ensures DoneUpTo(b, r', i) && Present(b, r', i) && SameFrom(b, r, r', i + 1)
  {
    Unfold(b, r, Inspect(i));
    Unfold(b, r, Upload(i));
    r' := AddVersion(r, b.packages[i], b.version, b.distTag);
    forall j | 0 <= j < i ensures Present(b, r', j) && Tagged(b, r', j) {
      assert Present(b, r, j) && Tagged(b, r, j);
    }
  }

  /** One package that does not clash. */
  lemma PublishesOne(b: Bundle, r: Registry, i: nat) returns (r': Registry)
    requires Loadable(b) && i < |b.packages| && DoneUpTo(b, r, i) && !Clashes(b, r, i)
    ensures RunToEnd(b, r, Inspect(i)) == RunToEnd(b, r', NextPackage(b, i))
    ensures DoneUpTo(b, r', i + 1) && SameFrom(b, r, r', i + 1)
  {
    if Present(b, r, i) {
      Unfold(b, r, Inspect(i));
      r' := TagsOne(b, r, i);
    } else {
      var uploaded := UploadsOne(b, r, i);
      r' := TagsOne(b, uploaded, i);
    }
  }

  lemma CompleteVerifies(b: Bundle, r: Registry)
    requires Loadable(b) && Complete(b, r)
    ensures RunToEnd(b, r, VerifyContent(0)).1 == Published
  {
    VerifyIsExact(b, r, Published);
  }

  /** With every package in place, only the entry package's `latest` can still be refused. */
  lemma LatestOutcome(b: Bundle, r: Registry)
    requires Loadable(b) && DoneUpTo(b, r, |b.packages|)
    ensures RunToEnd(b, r, CheckLatest).1 in {Published, Failed(TagRejected)}
  {
    Unfold(b, r, CheckLatest);
    if KnownPackage(r, ENTRY) {
      if RemoteDistTag(r, ENTRY, LATEST) == Some(b.version) {
        CompleteVerifies(b, r);
      } else {
        Unfold(b, r, AddLatest);
        if RemoteIntegrity(r, ENTRY, b.version).Some? {
          LatestKeepsDone(b, r);
          CompleteVerifies(b, SetTag(r, ENTRY, LATEST, b.version));
        }
      }
    }
  }

  lemma {:induction false} OutcomeFrom(b: Bundle, r: Registry, i: nat)
    requires Loadable(b) && i < |b.packages| && DoneUpTo(b, r, i)
    ensures var p := RunToEnd(b, r, Inspect(i)).1;
      || p in {Published, Failed(TagRejected)}
      || (p.Failed? && p.failure.DifferentIntegrity? && FirstClash(b, r, p.failure.index))
    ensures RunToEnd(b, r, Inspect(i)).1 in {Published, Failed(TagRejected)} ==>
      forall k :: 0 <= k < |b.packages| ==> !Clashes(b, r, k)
    decreases |b.packages| - i
  {
    assert forall j :: 0 <= j < i ==> Present(b, r, j);
    if Clashes(b, r, i) {
      Unfold(b, r, Inspect(i));
    } else {
      var r' := PublishesOne(b, r, i);
      assert forall j :: 0 <= j < i + 1 ==> Present(b, r', j);
      if i + 1 < |b.packages| {
        OutcomeFrom(b, r', i + 1);
      } else {
        LatestOutcome(b, r');
      }
      assert forall k :: i < k < |b.packages| ==> (Clashes(b, r', k) <==> Clashes(b, r, k));
    }
  }

  /** What an undisturbed run answers about the registry it started from. */
  ghost predicate PublishVerdict(b: Bundle, r: Registry, p: Point) {
    match p
    case Published => Publishable(b, r)
    case Failed(DifferentIntegrity(i)) => FirstClash(b, r, i)
    case Failed(TagRejected) => !Publishable(b, r) && forall i :: 0 <= i < |b.packages| ==> !Clashes(b, r, i)
    case _ => false
  }

  /**
   * An undisturbed run succeeds exactly when the bundle was publishable; it names a package exactly
   * when that is the first one to clash; and it is refused a tag exactly when nothing clashes and the
   * entry package neither has nor gets this version.
   */
  lemma PublishIsExact(b: Bundle, r: Registry, p: Point)
    requires Loadable(b) && TagsResolve(r)
    ensures RunToEnd(b, r, Inspect(0)).1 == p <==> PublishVerdict(b, r, p)
  {
    OutcomeFrom(b, r, 0);
    SucceedsIffPublishable(b, r);
    var q := RunToEnd(b, r, Inspect(0)).1;
    assert q.Failed? && q.failure.DifferentIntegrity? ==> !Publishable(b, r);
  }
}
