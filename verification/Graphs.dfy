/** Finite directed graphs given by predecessor lists, and what acyclicity buys. */
module Graphs {
  /** An identifier: a gate id, a package name. */
  datatype Id = Id(name: string)

  /** Every known id with the list of its predecessors, in the order they are visited. */
  type Graph = map<Id, seq<Id>>

  /** A predecessor list; an id the graph does not know has no predecessors. */
  function Preds(g: Graph, v: Id): seq<Id> {
    if v in g then g[v] else []
  }

  ghost function Elements<T>(s: seq<T>): set<T> {
    set x | x in s
  }

  lemma ElementsStep<T>(s: seq<T>, n: nat)
    requires n < |s|
    ensures Elements(s[..n + 1]) == Elements(s[..n]) + {s[n]}
  {
    assert s[..n + 1] == s[..n] + [s[n]];
  }

  ghost predicate Walk(g: Graph, w: seq<Id>) {
    && w != []
    && forall i, j :: 0 <= i < j < |w| && j == i + 1 ==> w[j] in Preds(g, w[i])
  }

  /** A walk of at least one edge that returns to where it began. */
  ghost predicate Cycle(g: Graph, c: seq<Id>) {
    && Walk(g, c)
    && |c| >= 2
    && c[0] == c[|c| - 1]
  }

  ghost predicate Acyclic(g: Graph) {
    forall c :: !Cycle(g, c)
  }

  /** Every id of the graph is ranked above each of its predecessors in the graph. */
  ghost predicate Ranked(g: Graph, rank: map<Id, nat>) {
    && g.Keys <= rank.Keys
    && forall v, p {:trigger rank[p], rank[v]} :: v in g && p in g[v] && p in g ==> rank[p] < rank[v]
  }

  /** A rank descends along every walk, so it leaves no room for a cycle. */
  lemma {:induction false} RankDescends(g: Graph, rank: map<Id, nat>, w: seq<Id>, i: nat)
    requires Ranked(g, rank)
    requires Walk(g, w)
    requires forall x :: x in w ==> x in g
    requires i < |w|
    ensures rank[w[i]] + i <= rank[w[0]]
    decreases i
  {
    if i == 0 {
    } else {
      RankDescends(g, rank, w, i - 1);
      assert w[i - 1 + 1] in Preds(g, w[i - 1]);
    }
  }

  lemma RankedIsAcyclic(g: Graph, rank: map<Id, nat>)
    requires Ranked(g, rank)
    ensures Acyclic(g)
  {
    forall c | Cycle(g, c) ensures false {
      forall x | x in c ensures x in g {
        var i :| 0 <= i < |c| && c[i] == x;
        var j := if i == |c| - 1 then 0 else i;
        assert c[j] == x && c[j + 1] in Preds(g, c[j]);
      }
      RankDescends(g, rank, c, |c| - 1);
    }
  }

  /**
   * Following predecessors inside a finite set must stop somewhere: the walk so far, read
   * backwards, would otherwise revisit an id and close a cycle.
   */
  lemma {:induction false} MinimalFrom(g: Graph, s: set<Id>, w: seq<Id>) returns (m: Id)
    requires Acyclic(g)
    requires Walk(g, w) && forall x :: x in w ==> x in s
    ensures m in s && forall p :: p in Preds(g, m) ==> p !in s
    decreases s - (set x | x in w)
  {
    var last := w[|w| - 1];
    if p :| p in Preds(g, last) && p in s {
      if p in w {
        var i :| 0 <= i < |w| && w[i] == p;
        assert Cycle(g, w[i..] + [p]);
      } else {
        ghost var before, after := (set x | x in w), (set x | x in w + [p]);
        assert p in s - before && p !in s - after && before <= after;
        m := MinimalFrom(g, s, w + [p]);
      }
    } else {
      m := last;
    }
  }

  /** In an acyclic graph every non-empty set has a member without predecessors in the set. */
  lemma MinimalMember(g: Graph, s: set<Id>) returns (m: Id)
    requires Acyclic(g)
    requires s != {}
    ensures m in s && forall p :: p in Preds(g, m) ==> p !in s
  {
    var x :| x in s;
    m := MinimalFrom(g, s, [x]);
  }
}
