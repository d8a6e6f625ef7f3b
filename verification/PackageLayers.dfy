/** The layered topological sort of workspace packages. */
module PackageLayers {
  import opened Graphs

  datatype Package = Package(short: Id, group: string, deps: seq<Id>)

  const MAX_SAFE_INTEGER := 9007199254740991

  /** String collation, of which only that it is a strict total order is used. */
  type Collation = (string, string) -> int

  ghost predicate TotalOrder(locale: Collation) {
    && (forall a, b :: locale(a, b) == 0 <==> a == b)
    && (forall a, b :: locale(a, b) < 0 <==> locale(b, a) > 0)
    && (forall a, b, c :: locale(a, b) < 0 && locale(b, c) < 0 ==> locale(a, c) < 0)
  }

  function IndexOf(s: seq<string>, x: string): int {
    if s == [] then -1
    else if s[0] == x then 0
    else
      var i := IndexOf(s[1..], x);
      if i == -1 then -1 else i + 1
  }

  function GroupRank(group: string, groupOrder: seq<string>): int {
    var i := IndexOf(groupOrder, group);
    if i == -1 then MAX_SAFE_INTEGER else i
  }

  /** Group position, then group name, then short name. */
  function ComparePackages(a: Package, b: Package, groupOrder: seq<string>, locale: Collation): int {
    var byRank := GroupRank(a.group, groupOrder) - GroupRank(b.group, groupOrder);
    if byRank != 0 then byRank
    else if locale(a.group, b.group) != 0 then locale(a.group, b.group)
    else locale(a.short.name, b.short.name)
  }

  /** No array of the language is longer. */
  const MAX_ARRAY_LENGTH := 0xFFFF_FFFF

  type GroupOrder = s: seq<string> | |s| <= MAX_ARRAY_LENGTH witness []

  /** The caller-chosen order and collation. */
  datatype Order = Order(groupOrder: GroupOrder, locale: Collation)

  /** The group is listed, and first listed in front of any place of the other. */
  ghost predicate ListedBefore(groupOrder: seq<string>, group: string, other: string) {
    exists i :: 0 <= i < |groupOrder| && groupOrder[i] == group && other !in groupOrder[..i + 1]
  }

  /**
   * The order within one depth: a group listed earlier, or listed while the other is not, comes
   * first; two groups that are not listed go by name; packages of one group by short name.
   */
  ghost predicate Before(o: Order, a: Package, b: Package) {
    || ListedBefore(o.groupOrder, a.group, b.group)
    || (a.group !in o.groupOrder && b.group !in o.groupOrder && o.locale(a.group, b.group) < 0)
    || (a.group == b.group && o.locale(a.short.name, b.short.name) < 0)
  }

  predicate ComparesBefore(o: Order, a: Package, b: Package) {
    ComparePackages(a, b, o.groupOrder, o.locale) < 0
  }

  /** `indexOf`: the first place, or -1 exactly when there is none. */
  lemma {:induction false} IndexOfIsFirst(s: seq<string>, x: string)
    ensures var i := IndexOf(s, x);
      && -1 <= i < |s| && (i == -1 <==> x !in s)
      && (i >= 0 ==> s[i] == x && x !in s[..i])
  {
    if s == [] {
    } else {
      IndexOfIsFirst(s[1..], x);
      assert s == [s[0]] + s[1..];
      var i := IndexOf(s, x);
      assert i > 0 ==> s[..i] == [s[0]] + s[1..][..i - 1];
    }
  }

  lemma ListedBeforeIsRanked(o: Order, group: string, other: string)
    ensures ListedBefore(o.groupOrder, group, other) <==>
      GroupRank(group, o.groupOrder) < GroupRank(other, o.groupOrder)
  {
    var s := o.groupOrder;
    var i, j := IndexOf(s, group), IndexOf(s, other);
    IndexOfIsFirst(s, group);
    IndexOfIsFirst(s, other);
    if ListedBefore(s, group, other) {
      var k :| 0 <= k < |s| && s[k] == group && other !in s[..k + 1];
      assert j >= 0 ==> j > k;
      assert i <= k;
    }
    if GroupRank(group, s) < GroupRank(other, s) {
      assert other !in s[..i + 1];
    }
  }

  /** The comparison function computes that order. */
  lemma ComparesAsOrdered(o: Order, a: Package, b: Package)
    requires TotalOrder(o.locale)
    ensures ComparesBefore(o, a, b) <==> Before(o, a, b)
  {
    ListedBeforeIsRanked(o, a.group, b.group);
    ListedBeforeIsRanked(o, b.group, a.group);
    IndexOfIsFirst(o.groupOrder, a.group);
    IndexOfIsFirst(o.groupOrder, b.group);
  }

  lemma BeforeIsTotal(o: Order, a: Package, b: Package)
    requires TotalOrder(o.locale) && a.short != b.short
    ensures Before(o, a, b) <==> !Before(o, b, a)
  {
    assert a.short.name != b.short.name;
    ComparesAsOrdered(o, a, b);
    ComparesAsOrdered(o, b, a);
    IndexOfIsFirst(o.groupOrder, a.group);
    IndexOfIsFirst(o.groupOrder, b.group);
  }

  lemma BeforeIsTransitive(o: Order, a: Package, b: Package, c: Package)
    requires TotalOrder(o.locale) && Before(o, a, b) && Before(o, b, c)
    ensures Before(o, a, c)
  {
    ComparesAsOrdered(o, a, b);
    ComparesAsOrdered(o, b, c);
    ComparesAsOrdered(o, a, c);
  }

  // ---------------------------------------------------------------- packages by short name

  ghost predicate Distinct(ps: seq<Package>) {
    forall i, j :: 0 <= i < j < |ps| ==> ps[i].short != ps[j].short
  }

  ghost function Shorts(ps: seq<Package>): set<Id> {
    set p | p in ps :: p.short
  }

  lemma ShortsOfCons(p: Package, ps: seq<Package>)
    ensures Shorts([p] + ps) == Shorts(ps) + {p.short}
  {
    assert p in [p] + ps;
  }

  lemma DistinctCons(p: Package, ps: seq<Package>)
    ensures Distinct([p] + ps) <==> Distinct(ps) && p.short !in Shorts(ps)
  {
    var all := [p] + ps;
    if Distinct(all) {
      forall q | q in ps ensures q.short != p.short {
        var i :| 0 <= i < |ps| && ps[i] == q;
        assert all[0].short != all[i + 1].short;
      }
      forall i, j | 0 <= i < j < |ps| ensures ps[i].short != ps[j].short {
        assert all[i + 1].short != all[j + 1].short;
      }
    }
  }

  /** Inserting into a map: a known key keeps its place and takes the new value. */
  function Put(ps: seq<Package>, p: Package): seq<Package> {
    if ps == [] then [p]
    else if ps[0].short == p.short then [p] + ps[1..]
    else [ps[0]] + Put(ps[1..], p)
  }

  lemma {:induction false} PutKeepsDistinct(ps: seq<Package>, p: Package)
    ensures Shorts(Put(ps, p)) == Shorts(ps) + {p.short}
    ensures Distinct(ps) ==> Distinct(Put(ps, p))
    ensures p.short !in Shorts(ps) ==> Put(ps, p) == ps + [p]
  {
    if ps == [] {
      ShortsOfCons(p, []);
    } else {
      assert ps == [ps[0]] + ps[1..];
      ShortsOfCons(ps[0], ps[1..]);
      DistinctCons(ps[0], ps[1..]);
      if ps[0].short == p.short {
        ShortsOfCons(p, ps[1..]);
        DistinctCons(p, ps[1..]);
      } else {
        PutKeepsDistinct(ps[1..], p);
        ShortsOfCons(ps[0], Put(ps[1..], p));
        DistinctCons(ps[0], Put(ps[1..], p));
      }
    }
  }

  /** The values of a map built from the list: the last package of a name wins. */
  function ByShort(ps: seq<Package>): seq<Package> {
    if ps == [] then [] else Put(ByShort(ps[..|ps| - 1]), ps[|ps| - 1])
  }

  lemma DistinctSnoc(ps: seq<Package>)
    requires Distinct(ps) && ps != []
    ensures Distinct(ps[..|ps| - 1]) && ps[|ps| - 1].short !in Shorts(ps[..|ps| - 1])
  {
  }

  lemma ShortsStep(ps: seq<Package>, k: nat)
    requires k < |ps|
    ensures Shorts(ps[..k + 1]) == Shorts(ps[..k]) + {ps[k].short}
    ensures ps[..k + 1] == ps[..k] + [ps[k]]
  {
  }

  lemma {:induction false} ByShortIsDistinct(ps: seq<Package>)
    ensures Distinct(ByShort(ps)) && Shorts(ByShort(ps)) == Shorts(ps)
    ensures Distinct(ps) ==> ByShort(ps) == ps
  {
    if ps == [] {
    } else {
      var front, last := ps[..|ps| - 1], ps[|ps| - 1];
      ByShortIsDistinct(front);
      PutKeepsDistinct(ByShort(front), last);
      ShortsStep(ps, |ps| - 1);
      assert ps[..|ps|] == ps;
      if Distinct(ps) {
        DistinctSnoc(ps);
      }
    }
  }

  /** The package stands in the list, and none behind it has its name. */
  ghost predicate IsLast(ps: seq<Package>, p: Package) {
    exists i :: 0 <= i < |ps| && ps[i] == p && forall j :: i < j < |ps| ==> ps[j].short != p.short
  }

  lemma {:induction false} PutMembers(ps: seq<Package>, p: Package, q: Package)
    requires Distinct(ps)
    ensures q in Put(ps, p) <==> q == p || (q in ps && q.short != p.short)
  {
    if ps == [] {
    } else {
      assert ps == [ps[0]] + ps[1..];
      DistinctCons(ps[0], ps[1..]);
      if ps[0].short != p.short {
        PutMembers(ps[1..], p, q);
      }
    }
  }

  lemma IsLastStep(ps: seq<Package>, q: Package)
    requires ps != []
    ensures var front, last := ps[..|ps| - 1], ps[|ps| - 1];
      IsLast(ps, q) <==> q == last || (IsLast(front, q) && q.short != last.short)
  {
    var front, last := ps[..|ps| - 1], ps[|ps| - 1];
    assert ps == front + [last];
    if IsLast(front, q) && q.short != last.short {
      var i :| 0 <= i < |front| && front[i] == q && forall j :: i < j < |front| ==> front[j].short != q.short;
      assert ps[i] == q;
    }
    if q == last {
      assert ps[|ps| - 1] == q;
    }
    if IsLast(ps, q) && q != last {
      var i :| 0 <= i < |ps| && ps[i] == q && forall j :: i < j < |ps| ==> ps[j].short != q.short;
      assert front[i] == q;
    }
  }

  /** Of several packages of one name, the map holds the last. */
  lemma {:induction false} ByShortHoldsLast(ps: seq<Package>, q: Package)
    ensures q in ByShort(ps) <==> IsLast(ps, q)
  {
    if ps == [] {
    } else {
      var front := ps[..|ps| - 1];
      ByShortHoldsLast(front, q);
      ByShortIsDistinct(front);
      PutMembers(ByShort(front), ps[|ps| - 1], q);
      IsLastStep(ps, q);
    }
  }

  /** The dependency graph of packages with distinct names. */
  function DependencyGraph(ps: seq<Package>): (g: Graph)
    requires Distinct(ps)
    ensures g.Keys == Shorts(ps)
    ensures forall p :: p in ps ==> g[p.short] == p.deps
  {
    if ps == [] then map[]
    else
      var front, last := ps[..|ps| - 1], ps[|ps| - 1];
      assert ps == front + [last];
      DependencyGraph(front)[last.short := last.deps]
  }

  ghost predicate Closed(ps: seq<Package>) {
    forall p, d :: p in ps && d in p.deps ==> d in Shorts(ps)
  }

  /** Every dependency is among the packages, and following dependencies never loops. */
  ghost predicate Sortable(ps: seq<Package>) {
    Distinct(ps) && Closed(ps) && Acyclic(DependencyGraph(ps))
  }

  // ---------------------------------------------------------------- depth

  /** Above all its dependencies, and just above one of them unless it is at the bottom. */
  ghost predicate AtDepth(p: Package, depth: map<Id, nat>) {
    && p.short in depth
    && (forall d :: d in p.deps ==> d in depth && depth[d] < depth[p.short])
    && (depth[p.short] == 0 || exists d :: d in p.deps && d in depth && depth[d] + 1 == depth[p.short])
  }

  /** `depth` is the length of the longest dependency chain below each package. */
  ghost predicate IsDepth(ps: seq<Package>, depth: map<Id, nat>) {
    depth.Keys == Shorts(ps) && forall p :: p in ps ==> AtDepth(p, depth)
  }

  lemma {:induction false} DepthIsUnique(ps: seq<Package>, d1: map<Id, nat>, d2: map<Id, nat>, p: Package)
    requires IsDepth(ps, d1) && IsDepth(ps, d2) && p in ps
    ensures d1[p.short] == d2[p.short]
    decreases d1[p.short]
  {
    forall d | d in p.deps ensures d1[d] == d2[d] {
      assert d in Shorts(ps);
      var q :| q in ps && q.short == d;
      DepthIsUnique(ps, d1, d2, q);
    }
  }

  /** A depth exists only for closed, acyclic dependencies. */
  lemma DepthRefutesCycles(ps: seq<Package>, depth: map<Id, nat>)
    requires Distinct(ps) && IsDepth(ps, depth)
    ensures Closed(ps) && Acyclic(DependencyGraph(ps))
  {
    var g := DependencyGraph(ps);
    forall v, p | v in g && p in g[v] && p in g ensures depth[p] < depth[v] {
      var q :| q in ps && q.short == v;
      assert AtDepth(q, depth);
    }
    RankedIsAcyclic(g, depth);
  }

  // ---------------------------------------------------------------- the sorted result

  /** Shallower first; within one depth, the caller's order. */
  ghost predicate Earlier(o: Order, depth: map<Id, nat>, a: Package, b: Package) {
    a.short in depth && b.short in depth &&
    (depth[a.short] < depth[b.short] || (depth[a.short] == depth[b.short] && Before(o, a, b)))
  }

  ghost predicate Layered(o: Order, depth: map<Id, nat>, ps: seq<Package>) {
    forall i, j :: 0 <= i < j < |ps| ==> Earlier(o, depth, ps[i], ps[j])
  }

  ghost predicate SortedBy(o: Order, ps: seq<Package>) {
    forall i, j :: 0 <= i < j < |ps| ==> Before(o, ps[i], ps[j])
  }

  lemma EarlierIsAsymmetric(o: Order, depth: map<Id, nat>, a: Package, b: Package)
    requires TotalOrder(o.locale) && Earlier(o, depth, a, b)
    ensures !Earlier(o, depth, b, a)
  {
  }

  lemma ShallowerIsFirst(o: Order, depth: map<Id, nat>, out: seq<Package>, i: nat, j: nat)
    requires TotalOrder(o.locale) && Layered(o, depth, out)
    requires i < |out| && j < |out| && out[i].short in depth && out[j].short in depth
    requires depth[out[i].short] < depth[out[j].short]
    ensures i < j
  {
    assert j < i ==> Earlier(o, depth, out[j], out[i]);
  }

  /** Every dependency stands before its dependents. */
  lemma DependenciesFirst(o: Order, ps: seq<Package>, out: seq<Package>, depth: map<Id, nat>, i: nat, j: nat)
    requires TotalOrder(o.locale) && IsDepth(ps, depth) && Layered(o, depth, out)
    requires multiset(out) == multiset(ps)
    requires i < |out| && j < |out| && out[i].short in out[j].deps
    ensures i < j
  {
    assert out[j] in multiset(ps);
    assert AtDepth(out[j], depth);
    ShallowerIsFirst(o, depth, out, i, j);
  }

  lemma LayeredHeadIsUnique(o: Order, depth: map<Id, nat>, a: seq<Package>, b: seq<Package>)
    requires TotalOrder(o.locale) && a != [] && b != []
    requires a[0] in b && b[0] in a
    requires Layered(o, depth, a) && Layered(o, depth, b)
    ensures a[0] == b[0]
  {
    if a[0] != b[0] {
      var i :| 0 <= i < |a| && a[i] == b[0];
      var j :| 0 <= j < |b| && b[j] == a[0];
      assert Earlier(o, depth, a[0], a[i]) && Earlier(o, depth, b[0], b[j]);
      EarlierIsAsymmetric(o, depth, a[0], b[0]);
    }
  }

  lemma SameSize(a: seq<Package>, b: seq<Package>)
    requires multiset(a) == multiset(b)
    ensures |a| == |b|
  {
    assert |a| == |multiset(a)| == |multiset(b)| == |b|;
  }

  lemma MultisetOfTail(a: seq<Package>)
    requires a != []
    ensures multiset(a[1..]) == multiset(a) - multiset{a[0]}
    ensures a == [a[0]] + a[1..]
  {
    assert a == [a[0]] + a[1..];
  }

  lemma SamePermutation(ps: seq<Package>, qs: seq<Package>)
    requires multiset(ps) == multiset(qs)
    ensures forall p :: p in ps <==> p in qs
  {
    forall p ensures p in ps <==> p in qs {
      assert p in ps <==> p in multiset(ps);
      assert p in qs <==> p in multiset(qs);
    }
  }

  /** A layered arrangement of given packages is unique. */
  lemma {:induction false} LayeredIsUnique(o: Order, depth: map<Id, nat>, a: seq<Package>, b: seq<Package>)
    requires TotalOrder(o.locale)
    requires multiset(a) == multiset(b)
    requires Layered(o, depth, a) && Layered(o, depth, b)
    ensures a == b
  {
    SameSize(a, b);
    if a == [] {
    } else {
      SamePermutation(a, b);
      assert a[0] in a && b[0] in b;
      LayeredHeadIsUnique(o, depth, a, b);
      MultisetOfTail(a);
      MultisetOfTail(b);
      LayeredIsUnique(o, depth, a[1..], b[1..]);
    }
  }

  // ---------------------------------------------------------------- sorting one layer

  /** Places a package before the first one it precedes. */
  function Insert(o: Order, p: Package, s: seq<Package>): (r: seq<Package>)
    ensures multiset(r) == multiset(s) + multiset{p}
  {
    if s == [] || ComparesBefore(o, p, s[0]) then [p] + s
    else
      assert s == [s[0]] + s[1..];
      [s[0]] + Insert(o, p, s[1..])
  }

  function Sort(o: Order, s: seq<Package>): (r: seq<Package>)
    ensures multiset(r) == multiset(s)
  {
    if s == [] then []
    else
      assert s == [s[0]] + s[1..];
      Insert(o, s[0], Sort(o, s[1..]))
  }

  lemma {:induction false} InsertIsSorted(o: Order, p: Package, s: seq<Package>)
    requires TotalOrder(o.locale) && SortedBy(o, s)
    requires forall q :: q in s ==> q.short != p.short
    ensures SortedBy(o, Insert(o, p, s))
  {
    if s != [] {
      ComparesAsOrdered(o, p, s[0]);
    }
    if s != [] && !Before(o, p, s[0]) {
      BeforeIsTotal(o, p, s[0]);
      InsertIsSorted(o, p, s[1..]);
      var rest := Insert(o, p, s[1..]);
      forall q | q in rest ensures Before(o, s[0], q) {
        assert q in multiset(rest);
        if q != p {
          var i :| 0 <= i < |s[1..]| && s[1..][i] == q;
          assert Before(o, s[0], s[i + 1]);
        }
      }
    } else if s != [] {
      forall i | 0 <= i < |s| ensures Before(o, p, s[i]) {
        if i > 0 {
          BeforeIsTransitive(o, p, s[0], s[i]);
        }
      }
    }
  }

  lemma {:induction false} SortIsSorted(o: Order, s: seq<Package>)
    requires TotalOrder(o.locale) && Distinct(s)
    ensures SortedBy(o, Sort(o, s))
  {
    if s == [] {
    } else {
      SortIsSorted(o, s[1..]);
      forall q | q in Sort(o, s[1..]) ensures q.short != s[0].short {
        assert q in multiset(s[1..]);
        var i :| 0 <= i < |s[1..]| && s[1..][i] == q;
        assert s[i + 1] == q;
      }
      InsertIsSorted(o, s[0], Sort(o, s[1..]));
    }
  }

  // ---------------------------------------------------------------- the layer loop

  datatype Result = Ok(packages: seq<Package>) | DependencyCycle(remaining: seq<Id>)

  predicate Ready(p: Package, placed: set<Id>) {
    forall d :: d in p.deps ==> d in placed
  }

  function ReadyAmong(ps: seq<Package>, placed: set<Id>): (r: seq<Package>)
    ensures forall p :: p in r <==> p in ps && Ready(p, placed)
  {
    if ps == [] then []
    else
      var front, last := ReadyAmong(ps[..|ps| - 1], placed), ps[|ps| - 1];
      if Ready(last, placed) then front + [last] else front
  }

  lemma {:induction false} ReadyAmongIsDistinct(ps: seq<Package>, placed: set<Id>)
    requires Distinct(ps)
    ensures Distinct(ReadyAmong(ps, placed))
  {
    if ps == [] {
    } else {
      var front, last := ps[..|ps| - 1], ps[|ps| - 1];
      ReadyAmongIsDistinct(front, placed);
      DistinctSnoc(ps);
      forall q | q in ReadyAmong(front, placed) ensures q.short != last.short {
        assert q.short in Shorts(front);
      }
    }
  }

  function Without(ps: seq<Package>, short: Id): (r: seq<Package>)
    ensures forall p :: p in r <==> p in ps && p.short != short
    ensures Distinct(ps) ==> Distinct(r)
    ensures |r| <= |ps|
  {
    if ps == [] then []
    else
      var front, last := Without(ps[..|ps| - 1], short), ps[|ps| - 1];
      if last.short == short then front else front + [last]
  }

  function ShortNames(ps: seq<Package>): (r: seq<Id>)
    ensures |r| == |ps| && forall i :: 0 <= i < |ps| ==> r[i] == ps[i].short
  {
    if ps == [] then [] else [ps[0].short] + ShortNames(ps[1..])
  }

  lemma ShortNamesAreShorts(ps: seq<Package>)
    ensures Elements(ShortNames(ps)) == Shorts(ps)
  {
    forall p | p in ps ensures p.short in Elements(ShortNames(ps)) {
      var i :| 0 <= i < |ps| && ps[i] == p;
      assert ShortNames(ps)[i] == p.short;
    }
  }

  /** After `n` layers: `out` holds the packages of depth below `n`, layered, `remaining` the others. */
  ghost predicate LayersPlaced(o: Order, all: seq<Package>, n: nat, depth: map<Id, nat>,
                               out: seq<Package>, remaining: seq<Package>) {
    && depth.Keys == Shorts(out)
    && Distinct(out) && Distinct(remaining)
    && (forall p :: p in all <==> p in out || p in remaining)
    && Shorts(out) !! Shorts(remaining)
    && (forall p :: p in out ==> AtDepth(p, depth) && depth[p.short] < n)
    && Layered(o, depth, out)
    && (n > 0 ==> forall p :: p in remaining ==> exists d :: d in p.deps && (d in depth ==> depth[d] + 1 == n))
  }

  /** The ready packages of this round get depth `n`. */
  ghost function Deepen(depth: map<Id, nat>, ready: seq<Package>, n: nat): map<Id, nat> {
    depth + map p | p in ready :: p.short := n
  }

  lemma SortedMembers(o: Order, ready: seq<Package>)
    ensures forall p :: p in Sort(o, ready) <==> p in ready
    ensures Shorts(Sort(o, ready)) == Shorts(ready)
  {
    assert forall p :: p in Sort(o, ready) <==> p in multiset(ready);
  }

  lemma LayerIsLayered(o: Order, n: nat, depth: map<Id, nat>, out: seq<Package>, ready: seq<Package>)
    requires TotalOrder(o.locale) && Distinct(ready)
    requires Layered(o, depth, out) && depth.Keys == Shorts(out) && depth.Keys !! Shorts(ready)
    requires forall p :: p in out ==> depth[p.short] < n
    ensures Layered(o, Deepen(depth, ready, n), out + Sort(o, ready))
  {
    var depth', out', sorted := Deepen(depth, ready, n), out + Sort(o, ready), Sort(o, ready);
    SortIsSorted(o, ready);
    SortedMembers(o, ready);
    forall p | p in out ensures p.short in depth' && depth'[p.short] == depth[p.short] {
      assert p.short in Shorts(out);
    }
    forall p | p in sorted ensures p.short in depth' && depth'[p.short] == n {
    }
    forall i, j | 0 <= i < j < |out'| ensures Earlier(o, depth', out'[i], out'[j]) {
      if j < |out| {
        assert Earlier(o, depth, out[i], out[j]);
        assert out[i] in out && out[j] in out;
      } else {
        assert out'[j] in sorted;
        if i < |out| {
          assert out[i] in out;
        } else {
          assert Before(o, sorted[i - |out|], sorted[j - |out|]);
        }
      }
    }
  }

  lemma LayerDepths(all: seq<Package>, n: nat, depth: map<Id, nat>, remaining: seq<Package>, ready: seq<Package>,
          p: Package)
    requires depth.Keys !! Shorts(remaining) && p in remaining
    requires forall q :: q in ready <==> q in remaining && Ready(q, depth.Keys)
    requires forall id :: id in depth ==> depth[id] < n
    requires n > 0 ==> exists d :: d in p.deps && (d in depth ==> depth[d] + 1 == n)
    ensures p in ready ==> AtDepth(p, Deepen(depth, ready, n))
    ensures p !in ready ==>
      exists d :: d in p.deps && (d in Deepen(depth, ready, n) ==> Deepen(depth, ready, n)[d] + 1 == n + 1)
  {
    var depth' := Deepen(depth, ready, n);
    if p in ready {
      forall d | d in p.deps ensures d in depth' && depth'[d] < n {
        assert d in depth && d !in Shorts(ready);
      }
      if n > 0 {
        var d :| d in p.deps && (d in depth ==> depth[d] + 1 == n);
        assert d in depth' && depth'[d] + 1 == n;
      }
    } else {
      var d :| d in p.deps && d !in depth;
      assert d in depth' ==> depth'[d] == n;
    }
  }

  lemma OldDepths(n: nat, depth: map<Id, nat>, ready: seq<Package>, p: Package)
    requires depth.Keys !! Shorts(ready) && AtDepth(p, depth) && depth[p.short] < n
    ensures AtDepth(p, Deepen(depth, ready, n)) && Deepen(depth, ready, n)[p.short] < n
  {
    var depth' := Deepen(depth, ready, n);
    assert forall id :: id in depth ==> id in depth' && depth'[id] == depth[id];
  }

  lemma SameShortSame(all: seq<Package>, p: Package, q: Package)
    requires Distinct(all) && p in all && q in all && p.short == q.short
    ensures p == q
  {
  }

  lemma LayerSplits(all: seq<Package>, placed: set<Id>, out: seq<Package>, remaining: seq<Package>,
                    out': seq<Package>, remaining': seq<Package>)
    requires Distinct(all)
    requires forall p :: p in all <==> p in out || p in remaining
    requires Shorts(out) !! Shorts(remaining)
    requires forall p :: p in out' <==> p in out || (p in remaining && Ready(p, placed))
    requires forall p :: p in remaining' <==> p in remaining && !Ready(p, placed)
    ensures forall p :: p in all <==> p in out' || p in remaining'
    ensures Shorts(out') !! Shorts(remaining')
  {
    forall p, q | p in out' && q in remaining' ensures p.short != q.short {
      assert q.short in Shorts(remaining);
      assert p in out ==> p.short in Shorts(out);
      if p.short == q.short {
        SameShortSame(all, p, q);
      }
    }
  }

  lemma LayerKeepsDepths(all: seq<Package>, n: nat, depth: map<Id, nat>, out: seq<Package>,
                         remaining: seq<Package>, ready: seq<Package>)
    requires depth.Keys == Shorts(out) && Shorts(out) !! Shorts(remaining)
    requires forall q :: q in ready <==> q in remaining && Ready(q, depth.Keys)
    requires forall p :: p in out ==> AtDepth(p, depth) && depth[p.short] < n
    requires n > 0 ==> forall p :: p in remaining ==> exists d :: d in p.deps && (d in depth ==> depth[d] + 1 == n)
    ensures var depth' := Deepen(depth, ready, n);
      && (forall p :: p in out || p in ready ==> AtDepth(p, depth') && depth'[p.short] < n + 1)
      && (forall p :: p in remaining && p !in ready ==>
        exists d :: d in p.deps && (d in depth' ==> depth'[d] + 1 == n + 1))
  {
    var depth' := Deepen(depth, ready, n);
    forall p | p in ready ensures p.short in Shorts(remaining) {
    }
    assert depth.Keys !! Shorts(ready);
    forall id | id in depth ensures depth[id] < n {
      var p :| p in out && p.short == id;
    }
    forall p | p in out || p in ready ensures AtDepth(p, depth') && depth'[p.short] < n + 1 {
      if p in out {
        OldDepths(n, depth, ready, p);
      } else {
        LayerDepths(all, n, depth, remaining, ready, p);
      }
    }
    forall p | p in remaining && p !in ready
      ensures exists d :: d in p.deps && (d in depth' ==> depth'[d] + 1 == n + 1)
    {
      LayerDepths(all, n, depth, remaining, ready, p);
    }
  }

  lemma ReadyAreUnplaced(depth: map<Id, nat>, remaining: seq<Package>)
    requires depth.Keys !! Shorts(remaining)
    ensures depth.Keys !! Shorts(ReadyAmong(remaining, depth.Keys))
    ensures Deepen(depth, ReadyAmong(remaining, depth.Keys), 0).Keys ==
      depth.Keys + Shorts(ReadyAmong(remaining, depth.Keys))
  {
    forall p | p in ReadyAmong(remaining, depth.Keys) ensures p.short in Shorts(remaining) {
    }
  }

  lemma ShortsOfConcat(a: seq<Package>, b: seq<Package>)
    ensures Shorts(a + b) == Shorts(a) + Shorts(b)
  {
  }

  /** The part of the invariant that concerns depths. */
  lemma LayerStepDepths(o: Order, all: seq<Package>, n: nat, depth: map<Id, nat>,
                        out: seq<Package>, remaining: seq<Package>, remaining': seq<Package>)
    requires TotalOrder(o.locale) && Distinct(all) && LayersPlaced(o, all, n, depth, out, remaining)
    requires forall p :: p in remaining' <==> p in remaining && !Ready(p, depth.Keys)
    ensures var ready := ReadyAmong(remaining, depth.Keys);
      var depth', out' := Deepen(depth, ready, n), out + Sort(o, ready);
      && depth'.Keys == Shorts(out')
      && (forall p :: p in out' ==> AtDepth(p, depth') && depth'[p.short] < n + 1)
      && (forall p :: p in remaining' ==> exists d :: d in p.deps && (d in depth' ==> depth'[d] + 1 == n + 1))
  {
    var ready := ReadyAmong(remaining, depth.Keys);
    ReadyAreUnplaced(depth, remaining);
    SortedMembers(o, ready);
    ShortsOfConcat(out, Sort(o, ready));
    LayerKeepsDepths(all, n, depth, out, remaining, ready);
  }

  lemma LayeredIsDistinct(o: Order, all: seq<Package>, depth: map<Id, nat>, ps: seq<Package>)
    requires TotalOrder(o.locale) && Layered(o, depth, ps)
    requires Distinct(all) && forall p :: p in ps ==> p in all
    ensures Distinct(ps)
  {
    forall i, j | 0 <= i < j < |ps| ensures ps[i].short != ps[j].short {
      assert Earlier(o, depth, ps[i], ps[j]);
      if ps[i].short == ps[j].short {
        SameShortSame(all, ps[i], ps[j]);
        EarlierIsAsymmetric(o, depth, ps[i], ps[j]);
      }
    }
  }

  /** The part of the invariant that concerns order and membership. */
  lemma LayerStepOrder(o: Order, all: seq<Package>, n: nat, depth: map<Id, nat>,
                       out: seq<Package>, remaining: seq<Package>, remaining': seq<Package>)
    requires TotalOrder(o.locale) && Distinct(all) && LayersPlaced(o, all, n, depth, out, remaining)
    requires forall p :: p in remaining' <==> p in remaining && !Ready(p, depth.Keys)
    ensures var ready := ReadyAmong(remaining, depth.Keys);
      var depth', out' := Deepen(depth, ready, n), out + Sort(o, ready);
      && (forall p :: p in all <==> p in out' || p in remaining')
      && Shorts(out') !! Shorts(remaining')
      && Layered(o, depth', out') && Distinct(out')
  {
    var ready := ReadyAmong(remaining, depth.Keys);
    var out' := out + Sort(o, ready);
    ReadyAmongIsDistinct(remaining, depth.Keys);
    ReadyAreUnplaced(depth, remaining);
    SortedMembers(o, ready);
    LayerSplits(all, depth.Keys, out, remaining, out', remaining');
    LayerIsLayered(o, n, depth, out, ready);
    LayeredIsDistinct(o, all, Deepen(depth, ready, n), out');
  }

  lemma LayerStep(o: Order, all: seq<Package>, n: nat, depth: map<Id, nat>,
                  out: seq<Package>, remaining: seq<Package>, remaining': seq<Package>)
    requires TotalOrder(o.locale) && Distinct(all)
    requires LayersPlaced(o, all, n, depth, out, remaining)
    requires Distinct(remaining')
    requires forall p :: p in remaining' <==> p in remaining && !Ready(p, depth.Keys)
    ensures var ready := ReadyAmong(remaining, depth.Keys);
      LayersPlaced(o, all, n + 1, Deepen(depth, ready, n), out + Sort(o, ready), remaining')
  {
    LayerStepDepths(o, all, n, depth, out, remaining, remaining');
    LayerStepOrder(o, all, n, depth, out, remaining, remaining');
  }

  lemma {:induction false} CountInDistinct(a: seq<Package>, p: Package)
    requires Distinct(a)
    ensures multiset(a)[p] == if p in a then 1 else 0
  {
    if a == [] {
    } else {
      MultisetOfTail(a);
      CountInDistinct(a[1..], p);
    }
  }

  lemma {:induction false} SamePackages(a: seq<Package>, b: seq<Package>)
    requires Distinct(a) && Distinct(b)
    requires forall p :: p in a <==> p in b
    ensures multiset(a) == multiset(b)
  {
    forall p ensures multiset(a)[p] == multiset(b)[p] {
      CountInDistinct(a, p);
      CountInDistinct(b, p);
    }
  }

  /** Everything placed: the packages are those given, and their layers are their depths. */
  lemma AllPlaced(o: Order, all: seq<Package>, n: nat, depth: map<Id, nat>, out: seq<Package>)
    requires Distinct(all) && LayersPlaced(o, all, n, depth, out, [])
    ensures IsDepth(all, depth) && Layered(o, depth, out) && multiset(out) == multiset(all)
  {
    SamePackages(out, all);
    assert Shorts(out) == Shorts(all);
  }

  /** Moves one sorted layer from the remaining packages to the result. */
  method PlaceLayer(layer: seq<Package>, placed0: set<Id>, out0: seq<Package>, remaining0: seq<Package>)
    returns (placed: set<Id>, out: seq<Package>, remaining: seq<Package>)
    ensures placed == placed0 + Shorts(layer)
    ensures out == out0 + layer
    ensures forall p :: p in remaining <==> p in remaining0 && p.short !in Shorts(layer)
    ensures Distinct(remaining0) ==> Distinct(remaining)
  {
    placed, out, remaining := placed0, out0, remaining0;
    for k := 0 to |layer|
      invariant placed == placed0 + Shorts(layer[..k])
      invariant out == out0 + layer[..k]
      invariant forall p :: p in remaining <==> p in remaining0 && p.short !in Shorts(layer[..k])
      invariant Distinct(remaining0) ==> Distinct(remaining)
    {
      ShortsStep(layer, k);
      out := out + [layer[k]];
      placed := placed + {layer[k].short};
      remaining := Without(remaining, layer[k].short);
    }
    assert layer[..|layer|] == layer;
  }

  lemma NotReadyRemain(all: seq<Package>, placed: set<Id>, remaining: seq<Package>, remaining': seq<Package>)
    requires Distinct(remaining)
    requires forall p :: p in remaining' <==> p in remaining && p.short !in Shorts(ReadyAmong(remaining, placed))
    ensures forall p :: p in remaining' <==> p in remaining && !Ready(p, placed)
  {
    forall p | p in remaining && !Ready(p, placed) ensures p.short !in Shorts(ReadyAmong(remaining, placed)) {
      if q :| q in ReadyAmong(remaining, placed) && q.short == p.short {
        SameShortSame(remaining, p, q);
      }
    }
  }

  /** One round: the ready packages, sorted, become the next layer. */
  method PlaceNextLayer(o: Order, ghost all: seq<Package>, ghost n: nat, ghost depth: map<Id, nat>,
                        placed: set<Id>, out: seq<Package>, remaining: seq<Package>, ready: seq<Package>)
    returns (placed': set<Id>, out': seq<Package>, remaining': seq<Package>)
    requires TotalOrder(o.locale) && Distinct(all)
    requires LayersPlaced(o, all, n, depth, out, remaining) && placed == depth.Keys
    requires ready == ReadyAmong(remaining, placed)
    ensures LayersPlaced(o, all, n + 1, Deepen(depth, ready, n), out', remaining')
    ensures placed' == Deepen(depth, ready, n).Keys == placed + Shorts(ready)
  {
    var layer := Sort(o, ready);
    SortedMembers(o, ready);
    placed', out', remaining' := PlaceLayer(layer, placed, out, remaining);
    NotReadyRemain(all, placed, remaining, remaining');
    LayerStep(o, all, n, depth, out, remaining, remaining');
  }

  ghost predicate StuckOn(ps: seq<Package>, s: set<Id>, id: Id) {
    exists p, d :: p in ps && p.short == id && d in p.deps && (d in s || d !in Shorts(ps))
  }

  /** Packages that can never be placed: each depends on another of them, or on a stranger. */
  ghost predicate Stuck(ps: seq<Package>, s: set<Id>) {
    forall id :: id in s ==> StuckOn(ps, s, id)
  }

  /** What blocks a placed package is placed below it. */
  lemma BlockerIsBelow(ps: seq<Package>, out: seq<Package>, depth: map<Id, nat>, s: set<Id>, id: Id) returns (d: Id)
    requires Distinct(ps) && StuckOn(ps, s, id)
    requires depth.Keys == Shorts(out) <= Shorts(ps)
    requires forall p :: p in out ==> p in ps && AtDepth(p, depth)
    requires id in depth
    ensures d in s && d in depth && depth[d] < depth[id]
  {
    var q :| q in out && q.short == id;
    var p;
    p, d :| p in ps && p.short == id && d in p.deps && (d in s || d !in Shorts(ps));
    SameShortSame(ps, p, q);
  }

  /** A placed package has a depth, and so is not stuck: the descent along blockers would not end. */
  lemma {:induction false} PlacedIsNotStuck(ps: seq<Package>, out: seq<Package>, depth: map<Id, nat>, s: set<Id>,
          id: Id)
    requires Distinct(ps) && Stuck(ps, s)
    requires depth.Keys == Shorts(out) <= Shorts(ps)
    requires forall p :: p in out ==> p in ps && AtDepth(p, depth)
    requires id in depth
    ensures id !in s
    decreases depth[id]
  {
    if id !in s {
    } else {
      var d := BlockerIsBelow(ps, out, depth, s, id);
      PlacedIsNotStuck(ps, out, depth, s, d);
    }
  }

  /** Among closed dependencies, what blocks a stuck package is a stuck predecessor. */
  lemma BlockerIsPredecessor(ps: seq<Package>, s: set<Id>, id: Id) returns (d: Id)
    requires Distinct(ps) && Closed(ps) && StuckOn(ps, s, id)
    ensures d in Preds(DependencyGraph(ps), id) && d in s
  {
    var p;
    p, d :| p in ps && p.short == id && d in p.deps && (d in s || d !in Shorts(ps));
    assert d in Shorts(ps);
  }

  /** Packages that block each other or depend on strangers cannot be sorted. */
  lemma StuckIsUnsortable(ps: seq<Package>, s: set<Id>)
    requires Stuck(ps, s) && s != {}
    ensures !Sortable(ps)
  {
    if Sortable(ps) {
      var m := MinimalMember(DependencyGraph(ps), s);
      var d := BlockerIsPredecessor(ps, s, m);
    }
  }

  /** When the loop stalls, the remaining packages are exactly the stuck ones. */
  lemma RemainingAreStuck(all: seq<Package>, o: Order, n: nat, depth: map<Id, nat>, out: seq<Package>,
          remaining: seq<Package>)
    requires Distinct(all) && LayersPlaced(o, all, n, depth, out, remaining)
    requires ReadyAmong(remaining, depth.Keys) == []
    ensures Stuck(all, Shorts(remaining))
    ensures forall s :: Stuck(all, s) ==> s <= Shorts(remaining)
  {
    forall id | id in Shorts(remaining) ensures StuckOn(all, Shorts(remaining), id) {
      var p :| p in remaining && p.short == id;
      assert p !in ReadyAmong(remaining, depth.Keys);
      var d :| d in p.deps && d !in depth;
      if d in Shorts(all) {
        var q :| q in all && q.short == d;
        assert q in out ==> q.short in Shorts(out);
      }
    }
    forall s, id | Stuck(all, s) && id in s ensures id in Shorts(remaining) {
      assert StuckOn(all, s, id);
      var p :| p in all && p.short == id;
      if p in out {
        assert id in Shorts(out);
        PlacedIsNotStuck(all, out, depth, s, id);
      }
    }
  }

  lemma UnplacedLeft(all: seq<Package>, o: Order, n: nat, depth: map<Id, nat>, out: seq<Package>,
          remaining: seq<Package>)
    requires LayersPlaced(o, all, n, depth, out, remaining)
    requires ReadyAmong(remaining, depth.Keys) != []
    ensures Shorts(all) - (depth.Keys + Shorts(ReadyAmong(remaining, depth.Keys))) < Shorts(all) - depth.Keys
  {
    var p := ReadyAmong(remaining, depth.Keys)[0];
    assert p in remaining && p.short in Shorts(remaining);
    assert p.short in Shorts(all) - depth.Keys;
  }

  /** A permutation ordered by depth and, within a depth, by the caller's order. */
  ghost predicate IsLayeredSort(o: Order, all: seq<Package>, packages: seq<Package>) {
    multiset(packages) == multiset(all) && exists depth :: IsDepth(all, depth) && Layered(o, depth, packages)
  }

  /** What the method answers about packages with distinct names. */
  ghost predicate Answers(o: Order, all: seq<Package>, r: Result)
    requires Distinct(all)
  {
    match r
    case Ok(packages) => Sortable(all) && IsLayeredSort(o, all, packages)
    case DependencyCycle(names) =>
      !Sortable(all) && names != [] && Stuck(all, Elements(names)) && forall s :: Stuck(all, s) ==> s <= Elements(names)
  }

  lemma StallIsAnswered(all: seq<Package>, o: Order, n: nat, depth: map<Id, nat>, out: seq<Package>,
          remaining: seq<Package>)
    requires Distinct(all) && LayersPlaced(o, all, n, depth, out, remaining)
    requires remaining != [] && ReadyAmong(remaining, depth.Keys) == []
    ensures Answers(o, all, DependencyCycle(ShortNames(remaining)))
  {
    RemainingAreStuck(all, o, n, depth, out, remaining);
    ShortNamesAreShorts(remaining);
    assert remaining[0].short in Shorts(remaining);
    StuckIsUnsortable(all, Shorts(remaining));
  }

  lemma SortIsAnswered(all: seq<Package>, o: Order, n: nat, depth: map<Id, nat>, out: seq<Package>)
    requires Distinct(all) && LayersPlaced(o, all, n, depth, out, [])
    ensures Answers(o, all, Ok(out))
  {
    AllPlaced(o, all, n, depth, out);
    DepthRefutesCycles(all, depth);
  }

  /**
   * Succeeds exactly when every dependency is among the packages and there is no cycle. Then the
   * result is a permutation ordered by depth and, within a depth, by the caller's order. The error
   * names the largest set of packages that block each other or depend on strangers.
   */
  method TopoSort(packages: seq<Package>, o: Order) returns (r: Result)
    requires TotalOrder(o.locale)
    ensures Distinct(ByShort(packages)) && Answers(o, ByShort(packages), r)
    ensures forall p :: p in ByShort(packages) <==> IsLast(packages, p)
  {
    ByShortIsDistinct(packages);
    forall p ensures p in ByShort(packages) <==> IsLast(packages, p) {
      ByShortHoldsLast(packages, p);
    }
    ghost var all := ByShort(packages);
    var remaining := ByShort(packages);
    var placed: set<Id> := {};
    var out: seq<Package> := [];
    ghost var n, depth: map<Id, nat> := 0, map[];
    while remaining != []
      invariant LayersPlaced(o, all, n, depth, out, remaining) && placed == depth.Keys
      decreases Shorts(all) - placed
    {
      var ready := ReadyAmong(remaining, placed);
      if ready == [] {
        StallIsAnswered(all, o, n, depth, out, remaining);
        return DependencyCycle(ShortNames(remaining));
      }
      UnplacedLeft(all, o, n, depth, out, remaining);
      placed, out, remaining := PlaceNextLayer(o, all, n, depth, placed, out, remaining, ready);
      depth, n := Deepen(depth, ready, n), n + 1;
    }
    SortIsAnswered(all, o, n, depth, out);
    r := Ok(out);
  }

  lemma SameShorts(ps: seq<Package>, qs: seq<Package>)
    requires forall p :: p in ps <==> p in qs
    ensures Shorts(ps) == Shorts(qs)
  {
  }

  lemma DepthTransfers(ps: seq<Package>, qs: seq<Package>, depth: map<Id, nat>)
    requires forall p :: p in ps <==> p in qs
    requires IsDepth(qs, depth)
    ensures IsDepth(ps, depth)
  {
    SameShorts(ps, qs);
    forall p | p in ps ensures AtDepth(p, depth) {
      assert p in qs;
    }
  }

  lemma DepthsAgree(ps: seq<Package>, qs: seq<Package>, da: map<Id, nat>, db: map<Id, nat>)
    requires forall p :: p in ps <==> p in qs
    requires IsDepth(ps, da) && IsDepth(qs, db)
    ensures da == db
  {
    SameShorts(ps, qs);
    DepthTransfers(ps, qs, db);
    forall id | id in da ensures id in db && da[id] == db[id] {
      var p :| p in ps && p.short == id;
      DepthIsUnique(ps, da, db, p);
    }
  }

  /** The result depends only on which packages there are, not on the order they were given in. */
  lemma OrderIndependent(o: Order, ps: seq<Package>, qs: seq<Package>, a: seq<Package>, b: seq<Package>)
    requires TotalOrder(o.locale)
    requires multiset(ps) == multiset(qs)
    requires IsLayeredSort(o, ps, a) && IsLayeredSort(o, qs, b)
    ensures a == b
  {
    var da :| IsDepth(ps, da) && Layered(o, da, a);
    var db :| IsDepth(qs, db) && Layered(o, db, b);
    SamePermutation(ps, qs);
    DepthsAgree(ps, qs, da, db);
    LayeredIsUnique(o, da, a, b);
  }
}
