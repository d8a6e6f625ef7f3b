/** Finding the HTML comments of a document inside its parsed HTML nodes. */
module HtmlComments {
  import opened CommentSweep
  import opened Texts

  const OPEN := "<!--"
  const CLOSE := "-->"

  predicate Occurs(pattern: string, s: string, k: int) {
    0 <= k && k + |pattern| <= |s| && s[k..k + |pattern|] == pattern
  }

  function IndexOf(pattern: string, s: string, from: nat): (i: int)
    ensures i == -1 || (from <= i && Occurs(pattern, s, i))
    ensures forall k :: from <= k && (i == -1 || k < i) ==> !Occurs(pattern, s, k)
    decreases |s| - from
  {
    if from + |pattern| > |s| then -1
    else if Occurs(pattern, s, from) then from
    else IndexOf(pattern, s, from + 1)
  }

  ghost predicate Closes(s: string, r: Range) {
    r.0 + |OPEN| + |CLOSE| <= r.1 && Occurs(CLOSE, s, r.1 - |CLOSE|)
  }

  /** From an opening mark to the first closing mark behind it, or to the end of the text. */
  ghost predicate IsComment(s: string, r: Range) {
    && Occurs(OPEN, s, r.0) && r.0 + |OPEN| <= r.1 <= |s|
    && (forall k :: r.0 + |OPEN| <= k && k + |CLOSE| < r.1 ==> !Occurs(CLOSE, s, k))
    && (Closes(s, r) || (r.1 == |s| && forall k :: r.0 + |OPEN| <= k ==> !Occurs(CLOSE, s, k)))
  }

  /** The comments of a text from an offset on: in order, apart, and none missed. */
  ghost predicate AreComments(s: string, from: nat, cs: seq<Range>) {
    && (forall r :: r in cs ==> from <= r.0 && IsComment(s, r))
    && (forall i, j :: 0 <= i < j < |cs| ==> cs[i].1 <= cs[j].0)
    && (forall k :: from <= k && Occurs(OPEN, s, k) ==> Hidden(cs, k))
  }

  /** The comments found before the cursor: in order, apart, and none missed. */
  ghost predicate Scanned(s: string, cs: seq<Range>, cursor: int) {
    && (forall r :: r in cs ==> IsComment(s, r) && r.1 <= cursor)
    && (forall i, j :: 0 <= i < j < |cs| ==> cs[i].1 <= cs[j].0)
    && (forall k :: 0 <= k < cursor && Occurs(OPEN, s, k) ==> Hidden(cs, k))
  }

  lemma OneMoreComment(s: string, cs: seq<Range>, cursor: nat, r: Range)
    requires Scanned(s, cs, cursor) && cursor <= r.0 && IsComment(s, r)
    requires forall k :: cursor <= k < r.0 ==> !Occurs(OPEN, s, k)
    ensures Scanned(s, cs + [r], r.1)
  {
    forall k | 0 <= k < r.1 && Occurs(OPEN, s, k) ensures Hidden(cs + [r], k) {
      if k < cursor {
        assert Hidden(cs, k);
        var q :| q in cs && Covers(q, k);
        assert q in cs + [r];
      } else {
        assert r in cs + [r] && Covers(r, k);
      }
    }
  }

  /** Behind the first closing mark after an opening one, or the end of the text. */
  method CommentEnd(s: string, start: nat) returns (end: nat)
    requires Occurs(OPEN, s, start)
    ensures IsComment(s, (start, end))
  {
    var close := IndexOf(CLOSE, s, start + |OPEN|);
    end := if close < 0 then |s| else close + |CLOSE|;
  }

  lemma ScannedAll(s: string, cs: seq<Range>, cursor: nat)
    requires Scanned(s, cs, cursor) && IndexOf(OPEN, s, cursor) < 0
    ensures AreComments(s, 0, cs)
  {
  }

  /** The scan of one node's text. */
  method CommentsIn(s: string) returns (cs: seq<Range>)
    ensures AreComments(s, 0, cs)
  {
    cs := [];
    var cursor: nat := 0;
    var start := IndexOf(OPEN, s, cursor);
    while start >= 0
      invariant 0 <= cursor <= |s| && start == IndexOf(OPEN, s, cursor)
      invariant Scanned(s, cs, cursor)
      decreases |s| - cursor
    {
      var end := CommentEnd(s, start);
      OneMoreComment(s, cs, cursor, (start, end));
      cs := cs + [(start, end)];
      cursor := end;
      start := IndexOf(OPEN, s, cursor);
    }
    ScannedAll(s, cs, cursor);
  }

  lemma CommentEndIsUnique(s: string, a: Range, b: Range)
    requires IsComment(s, a) && IsComment(s, b) && a.0 == b.0
    ensures a.1 == b.1
  {
  }

  lemma FirstStartsFirst(s: string, from: nat, a: seq<Range>, b: seq<Range>)
    requires AreComments(s, from, a) && AreComments(s, from, b) && a != [] && b != []
    ensures b[0].0 <= a[0].0
  {
    assert a[0] in a && Hidden(b, a[0].0);
    var r :| r in b && Covers(r, a[0].0);
    var j :| 0 <= j < |b| && b[j] == r;
    assert j > 0 ==> b[0].1 <= b[j].0;
    assert b[0] in b;
  }

  lemma TailOfComments(s: string, from: nat, a: seq<Range>)
    requires AreComments(s, from, a) && a != []
    ensures AreComments(s, a[0].1, a[1..])
  {
    forall k | a[0].1 <= k && Occurs(OPEN, s, k) ensures Hidden(a[1..], k) {
      assert a[0] in a;
      assert Hidden(a, k);
      var r :| r in a && Covers(r, k);
      var j :| 0 <= j < |a| && a[j] == r;
      assert a[1..][j - 1] == r;
    }
    forall r | r in a[1..] ensures a[0].1 <= r.0 && IsComment(s, r) {
      var j :| 0 <= j < |a[1..]| && a[1..][j] == r;
      assert a[j + 1] in a;
    }
  }

  lemma FirstOpens(s: string, from: nat, a: seq<Range>)
    requires AreComments(s, from, a) && a != []
    ensures from <= a[0].0 && Occurs(OPEN, s, a[0].0)
  {
    assert a[0] in a;
  }

  lemma NoneIsShared(s: string, from: nat, a: seq<Range>, b: seq<Range>)
    requires AreComments(s, from, a) && AreComments(s, from, b) && a == []
    ensures b == []
  {
    if b != [] {
      FirstOpens(s, from, b);
    }
  }

  lemma FirstIsShared(s: string, from: nat, a: seq<Range>, b: seq<Range>)
    requires AreComments(s, from, a) && AreComments(s, from, b) && a != [] && b != []
    ensures a[0] == b[0]
  {
    FirstStartsFirst(s, from, a, b);
    FirstStartsFirst(s, from, b, a);
    assert a[0] in a && b[0] in b;
    CommentEndIsUnique(s, a[0], b[0]);
  }

  lemma SameHeadAndTail(a: seq<Range>, b: seq<Range>)
    requires a != [] && b != [] && a[0] == b[0] && a[1..] == b[1..]
    ensures a == b
  {
    assert a == [a[0]] + a[1..];
  }

  /** A text has one list of comments. */
  lemma {:induction false} CommentsAreUnique(s: string, from: nat, a: seq<Range>, b: seq<Range>)
    requires AreComments(s, from, a) && AreComments(s, from, b)
    ensures a == b
    decreases |a|
  {
    if a == [] {
      NoneIsShared(s, from, a, b);
    } else if b == [] {
      NoneIsShared(s, from, b, a);
    } else {
      FirstIsShared(s, from, a, b);
      TailOfComments(s, from, a);
      TailOfComments(s, from, b);
      CommentsAreUnique(s, a[0].1, a[1..], b[1..]);
      SameHeadAndTail(a, b);
    }
  }

  /** Where the comment opened at `start` ends. */
  function EndOf(s: string, start: nat): (end: nat)
    requires Occurs(OPEN, s, start)
    ensures start < end <= |s|
  {
    var close := IndexOf(CLOSE, s, start + |OPEN|);
    if close < 0 then |s| else close + |CLOSE|
  }

  /** The comments of a text from an offset on, as a function. */
  ghost function CommentsFrom(s: string, from: nat): seq<Range>
    decreases |s| - from
  {
    var start := IndexOf(OPEN, s, from);
    if start < 0 then [] else [(start, EndOf(s, start))] + CommentsFrom(s, EndOf(s, start))
  }

  ghost function CommentsOf(s: string): seq<Range> {
    CommentsFrom(s, 0)
  }

  lemma HiddenByOne(r: Range, o: int)
    ensures Hidden([r], o) <==> Covers(r, o)
  {
    assert r in [r];
  }

  lemma FollowedMisses(s: string, from: nat, c: Range, tail: seq<Range>, k: int)
    requires from <= k && Occurs(OPEN, s, k)
    requires k >= c.1 ==> Hidden(tail, k)
    requires k < c.0 ==> !Occurs(OPEN, s, k)
    ensures Hidden([c] + tail, k)
  {
    HiddenByEither([c], tail, k);
    HiddenByOne(c, k);
  }

  lemma FollowedApart(c: Range, tail: seq<Range>)
    requires forall r :: r in tail ==> c.1 <= r.0
    requires forall i, j :: 0 <= i < j < |tail| ==> tail[i].1 <= tail[j].0
    ensures forall i, j :: 0 <= i < j < |[c] + tail| ==> ([c] + tail)[i].1 <= ([c] + tail)[j].0
  {
    forall i, j | 0 <= i < j < |[c] + tail| ensures ([c] + tail)[i].1 <= ([c] + tail)[j].0 {
      assert tail[j - 1] in tail;
    }
  }

  lemma FollowedStart(s: string, from: nat, c: Range, tail: seq<Range>, r: Range)
    requires from <= c.0 <= c.1 && IsComment(s, c)
    requires r in tail ==> c.1 <= r.0 && IsComment(s, r)
    requires r in [c] + tail
    ensures from <= r.0 && IsComment(s, r)
  {
  }

  lemma CommentFollowed(s: string, from: nat, c: Range, tail: seq<Range>)
    requires AreComments(s, c.1, tail) && IsComment(s, c) && from <= c.0
    requires forall k :: from <= k < c.0 ==> !Occurs(OPEN, s, k)
    ensures AreComments(s, from, [c] + tail)
  {
    FollowedApart(c, tail);
    forall r | r in [c] + tail ensures from <= r.0 && IsComment(s, r) {
      FollowedStart(s, from, c, tail, r);
    }
    forall k | from <= k && Occurs(OPEN, s, k) ensures Hidden([c] + tail, k) {
      FollowedMisses(s, from, c, tail, k);
    }
  }

  lemma CommentEndFound(s: string, start: nat)
    requires Occurs(OPEN, s, start)
    ensures IsComment(s, (start, EndOf(s, start)))
  {
  }

  lemma NoComments(s: string, from: nat)
    requires IndexOf(OPEN, s, from) < 0
    ensures AreComments(s, from, [])
  {
  }

  lemma {:induction false} CommentsFromAre(s: string, from: nat)
    ensures AreComments(s, from, CommentsFrom(s, from))
    decreases |s| - from
  {
    var start := IndexOf(OPEN, s, from);
    if start < 0 {
      NoComments(s, from);
    } else {
      var end := EndOf(s, start);
      CommentsFromAre(s, end);
      CommentEndFound(s, start);
      CommentFollowed(s, from, (start, end), CommentsFrom(s, end));
    }
  }

  /** What is known of each comment without looking at the text. */
  lemma CommentsFit(s: string)
    ensures forall c :: c in CommentsOf(s) ==> c.0 < c.1 <= |s|
    ensures forall i, j :: 0 <= i < j < |CommentsOf(s)| ==> CommentsOf(s)[i].1 <= CommentsOf(s)[j].0
  {
    CommentsFromAre(s, 0);
  }

  // ---------------------------------------------------------------- a node in the document

  /** A continuation line of a node: what the parser strips as container markup, and what it keeps. */
  datatype Part = Part(prefix: string, text: string)

  /**
   * A parsed HTML node: where it starts in the document, its first line, and its other lines. In a
   * list item or a block quote, their indentation or markers are not part of the node's value.
   */
  datatype HtmlNode = HtmlNode(offset: nat, first: string, rest: seq<Part>)

  function LineThen(line: string, later: string): string {
    "\n" + line + later
  }

  function ValueOf(rest: seq<Part>): string {
    if rest == [] then "" else LineThen(rest[0].text, ValueOf(rest[1..]))
  }

  function SourceOf(rest: seq<Part>): string {
    if rest == [] then "" else LineThen(rest[0].prefix + rest[0].text, SourceOf(rest[1..]))
  }

  /** The text the parser reports. */
  function Value(node: HtmlNode): string {
    node.first + ValueOf(node.rest)
  }

  /** The text as it stands in the document. */
  function SourceText(node: HtmlNode): string {
    node.first + SourceOf(node.rest)
  }

  ghost predicate Stands(source: string, node: HtmlNode) {
    && node.offset + |SourceText(node)| <= |source|
    && source[node.offset..node.offset + |SourceText(node)|] == SourceText(node)
  }

  /** Where the `v`-th character of the value stands among the lines as they are in the document. */
  function OwnIn(rest: seq<Part>, v: nat): nat
    requires v < |ValueOf(rest)|
  {
    var n := |rest[0].text|;
    if v == 0 then 0
    else if v <= n then |rest[0].prefix| + v
    else |rest[0].prefix| + n + 1 + OwnIn(rest[1..], v - n - 1)
  }

  function Own(node: HtmlNode, v: nat): nat
    requires v < |Value(node)|
  {
    if v < |node.first| then v else |node.first| + OwnIn(node.rest, v - |node.first|)
  }

  /** Where the text of the `k`-th continuation line begins in the value. */
  function Begins(rest: seq<Part>, k: nat): nat
    requires k < |rest|
  {
    |ValueOf(rest[..k])| + 1
  }

  ghost predicate UnprefixedIn(rest: seq<Part>, v: int) {
    forall k :: 0 <= k < |rest| && Begins(rest, k) <= v ==> rest[k].prefix == ""
  }

  /** Every prefix stripped from the lines up to the `v`-th character of the value is empty. */
  ghost predicate Unprefixed(node: HtmlNode, v: int) {
    UnprefixedIn(node.rest, v - |node.first|)
  }

  lemma BeginsLater(rest: seq<Part>, k: nat)
    requires 0 < k < |rest|
    ensures Begins(rest, k) == |rest[0].text| + 1 + Begins(rest[1..], k - 1)
  {
    assert rest[..k][1..] == rest[1..][..k - 1];
  }

  lemma UnprefixedStep(rest: seq<Part>, v: int)
    requires rest != []
    ensures UnprefixedIn(rest, v) <==>
      (v >= 1 ==> rest[0].prefix == "") && UnprefixedIn(rest[1..], v - |rest[0].text| - 1)
  {
    assert rest[..0] == [] && Begins(rest, 0) == 1;
    if UnprefixedIn(rest, v) {
      forall k | 0 <= k < |rest[1..]| && Begins(rest[1..], k) <= v - |rest[0].text| - 1
        ensures rest[1..][k].prefix == ""
      {
        BeginsLater(rest, k + 1);
      }
    }
    if (v >= 1 ==> rest[0].prefix == "") && UnprefixedIn(rest[1..], v - |rest[0].text| - 1) {
      forall k | 0 <= k < |rest| && Begins(rest, k) <= v ensures rest[k].prefix == "" {
        if k > 0 {
          BeginsLater(rest, k);
          assert rest[1..][k - 1] == rest[k];
        }
      }
    }
  }

  lemma UnprefixedAtStart(rest: seq<Part>, v: int)
    requires v <= 0
    ensures UnprefixedIn(rest, v)
  {
  }

  lemma Behind(a: string, b: string, i: nat)
    requires i < |b|
    ensures (a + b)[|a| + i] == b[i]
  {
  }

  lemma InLine(line: string, later: string, i: nat)
    requires i < |line|
    ensures LineThen(line, later)[i + 1] == line[i]
  {
    assert ("\n" + line)[i + 1] == line[i];
  }

  lemma BehindLine(line: string, later: string, i: nat)
    requires i < |later|
    ensures LineThen(line, later)[|line| + 1 + i] == later[i]
  {
    Behind("\n" + line, later, i);
  }

  lemma FirstLineStands(part: Part, value: string, source: string, v: nat)
    requires v <= |part.text|
    ensures var o := if v == 0 then 0 else |part.prefix| + v;
      LineThen(part.prefix + part.text, source)[o] == LineThen(part.text, value)[v]
  {
    if v > 0 {
      InLine(part.text, value, v - 1);
      InLine(part.prefix + part.text, source, |part.prefix| + v - 1);
      Behind(part.prefix, part.text, v - 1);
    }
  }

  lemma LaterLineStands(part: Part, value: string, source: string, v: nat, o: nat)
    requires v < |value| && o < |source| && source[o] == value[v]
    ensures LineThen(part.prefix + part.text, source)[|part.prefix| + |part.text| + 1 + o]
         == LineThen(part.text, value)[|part.text| + 1 + v]
  {
    BehindLine(part.text, value, v);
    BehindLine(part.prefix + part.text, source, o);
  }

  /** The character `v` of the value is the same in the document. */
  ghost predicate SameThere(rest: seq<Part>, v: nat)
    requires v < |ValueOf(rest)|
  {
    OwnIn(rest, v) < |SourceOf(rest)| && SourceOf(rest)[OwnIn(rest, v)] == ValueOf(rest)[v]
  }

  lemma FirstIsSame(rest: seq<Part>, v: nat)
    requires rest != [] && v <= |rest[0].text|
    ensures v < |ValueOf(rest)| && SameThere(rest, v)
  {
    FirstLineStands(rest[0], ValueOf(rest[1..]), SourceOf(rest[1..]), v);
  }

  lemma LaterOwn(rest: seq<Part>, v: nat)
    requires rest != [] && v < |ValueOf(rest[1..])|
    ensures |rest[0].text| + 1 + v < |ValueOf(rest)|
    ensures OwnIn(rest, |rest[0].text| + 1 + v) == |rest[0].prefix| + |rest[0].text| + 1 + OwnIn(rest[1..], v)
  {
  }

  lemma LaterIsSame(rest: seq<Part>, v: nat)
    requires rest != [] && v < |ValueOf(rest[1..])| && SameThere(rest[1..], v)
    ensures |rest[0].text| + 1 + v < |ValueOf(rest)| && SameThere(rest, |rest[0].text| + 1 + v)
  {
    var value, source, o := ValueOf(rest[1..]), SourceOf(rest[1..]), OwnIn(rest[1..], v);
    LaterOwn(rest, v);
    LaterLineStands(rest[0], value, source, v, o);
    assert ValueOf(rest) == LineThen(rest[0].text, value);
    assert SourceOf(rest) == LineThen(rest[0].prefix + rest[0].text, source);
  }

  lemma {:induction false} OwnInStands(rest: seq<Part>, v: nat)
    requires v < |ValueOf(rest)|
    ensures SameThere(rest, v)
  {
    var n := |rest[0].text|;
    if v <= n {
      FirstIsSame(rest, v);
    } else {
      OwnInStands(rest[1..], v - n - 1);
      LaterIsSame(rest, v - n - 1);
    }
  }

  /** It stands no earlier there, and just as early iff nothing was stripped before it. */
  lemma {:induction false} OwnInIsLater(rest: seq<Part>, v: nat)
    requires v < |ValueOf(rest)|
    ensures v <= OwnIn(rest, v) && (OwnIn(rest, v) == v <==> UnprefixedIn(rest, v))
  {
    var n := |rest[0].text|;
    UnprefixedStep(rest, v);
    if v <= n {
      UnprefixedAtStart(rest[1..], v - n - 1);
    } else {
      OwnInIsLater(rest[1..], v - n - 1);
    }
  }

  /** A character of the value stands in the document, `Own` characters behind the node's start. */
  lemma OwnStands(node: HtmlNode, v: nat)
    requires v < |Value(node)|
    ensures v <= Own(node, v) < |SourceText(node)| && SourceText(node)[Own(node, v)] == Value(node)[v]
    ensures Own(node, v) == v <==> Unprefixed(node, v)
    ensures forall source :: Stands(source, node) ==> source[node.offset + Own(node, v)] == Value(node)[v]
  {
    if v < |node.first| {
      UnprefixedAtStart(node.rest, v - |node.first|);
    } else {
      OwnInStands(node.rest, v - |node.first|);
      OwnInIsLater(node.rest, v - |node.first|);
    }
    forall source | Stands(source, node) ensures source[node.offset + Own(node, v)] == Value(node)[v] {
      assert source[node.offset..node.offset + |SourceText(node)|][Own(node, v)] == Value(node)[v];
    }
  }

  // ---------------------------------------------------------------- one comment in the document

  /** The offset of a character of the comment, where it stands in the document. */
  ghost predicate IsOwn(node: HtmlNode, c: Range, o: int) {
    exists v: nat :: c.0 <= v < c.1 && v < |Value(node)| && o == node.offset + Own(node, v)
  }

  lemma UnprefixedHides(node: HtmlNode, c: Range)
    requires c.0 < c.1 <= |Value(node)| && Unprefixed(node, c.1 - 1)
    ensures forall o :: Covers((c.0 + node.offset, c.1 + node.offset), o) <==> IsOwn(node, c, o)
  {
    forall v: nat | c.0 <= v < c.1 ensures v < |Value(node)| && Own(node, v) == v {
      OwnStands(node, v);
    }
    forall o | Covers((c.0 + node.offset, c.1 + node.offset), o) ensures IsOwn(node, c, o) {
      var v: nat := o - node.offset;
      assert o == node.offset + Own(node, v);
    }
  }

  /**
   * The interval computed for a comment, shifted by the node's start, hides exactly the comment's own
   * characters iff every prefix stripped up to the comment's end is empty.
   */
  lemma CommentIsHiddenIffUnprefixed(node: HtmlNode, c: Range)
    requires c.0 < c.1 <= |Value(node)|
    ensures (forall o :: Covers((c.0 + node.offset, c.1 + node.offset), o) <==> IsOwn(node, c, o))
       <==> Unprefixed(node, c.1 - 1)
  {
    var last := c.1 - 1;
    OwnStands(node, last);
    if forall o :: Covers((c.0 + node.offset, c.1 + node.offset), o) <==> IsOwn(node, c, o) {
      assert IsOwn(node, c, node.offset + Own(node, last));
    } else if Unprefixed(node, last) {
      UnprefixedHides(node, c);
    }
  }

  // ---------------------------------------------------------------- the comments of all nodes

  /** The offset lies in an interval computed from the node. */
  ghost predicate ComputedIn(node: HtmlNode, o: int) {
    Hidden(CommentsOf(Value(node)), o - node.offset)
  }

  /** The offset is that of a comment's character, where it stands in the document. */
  ghost predicate StandsIn(node: HtmlNode, o: int) {
    exists c: Range :: c in CommentsOf(Value(node)) && IsOwn(node, c, o)
  }

  /** No comment of the node reaches into a line from which a prefix was stripped, or behind one. */
  ghost predicate PlainNode(node: HtmlNode) {
    forall c: Range :: c in CommentsOf(Value(node)) ==> Unprefixed(node, c.1 - 1)
  }

  lemma ShiftedCovers(c: Range, delta: nat, o: int)
    ensures Covers((c.0 + delta, c.1 + delta), o) <==> Covers(c, o - delta)
  {
  }

  lemma PlainNodeHides(node: HtmlNode, o: int)
    requires PlainNode(node)
    ensures ComputedIn(node, o) <==> StandsIn(node, o)
  {
    CommentsFit(Value(node));
    forall c | c in CommentsOf(Value(node)) ensures Covers(c, o - node.offset) <==> IsOwn(node, c, o) {
      UnprefixedHides(node, c);
      ShiftedCovers(c, node.offset, o);
    }
  }

  lemma LastEndsLast(s: string, c: Range)
    requires c in CommentsOf(s)
    ensures c.1 <= CommentsOf(s)[|CommentsOf(s)| - 1].1
  {
    CommentsFit(s);
    var cs := CommentsOf(s);
    var i :| 0 <= i < |cs| && cs[i] == c;
    assert cs[|cs| - 1] in cs;
  }

  lemma PrefixedLater(node: HtmlNode, u: int, v: int)
    requires u <= v && !Unprefixed(node, u)
    ensures !Unprefixed(node, v)
  {
  }

  lemma LastStandsBeyond(node: HtmlNode, c: Range)
    requires c.0 < c.1 <= |Value(node)| && !Unprefixed(node, c.1 - 1)
    ensures Own(node, c.1 - 1) >= c.1
    ensures IsOwn(node, c, node.offset + Own(node, c.1 - 1))
  {
    var v: nat := c.1 - 1;
    OwnStands(node, v);
    assert c.0 <= v < c.1 && v < |Value(node)|;
  }

  lemma NothingComputedBeyond(node: HtmlNode, o: int)
    requires CommentsOf(Value(node)) != []
    requires o - node.offset >= CommentsOf(Value(node))[|CommentsOf(Value(node))| - 1].1
    ensures !ComputedIn(node, o)
  {
    forall d | d in CommentsOf(Value(node)) ensures !Covers(d, o - node.offset) {
      LastEndsLast(Value(node), d);
    }
  }

  /** Behind a stripped prefix, the last character of the last comment stands beyond everything computed. */
  lemma SomePrefixShows(node: HtmlNode)
    requires !PlainNode(node)
    ensures exists o :: StandsIn(node, o) && !ComputedIn(node, o)
  {
    var cs := CommentsOf(Value(node));
    var c: Range :| c in cs && !Unprefixed(node, c.1 - 1);
    var last := cs[|cs| - 1];
    assert last in cs;
    CommentsFit(Value(node));
    LastEndsLast(Value(node), c);
    PrefixedLater(node, c.1 - 1, last.1 - 1);
    LastStandsBeyond(node, last);
    var o := node.offset + Own(node, last.1 - 1);
    NothingComputedBeyond(node, o);
    assert StandsIn(node, o);
  }

  /**
   * What is computed for a node is what stands in the document, exactly when no comment of it reaches
   * into or behind a line with a stripped prefix.
   */
  lemma NodeIsHiddenIffPlain(node: HtmlNode)
    ensures (forall o :: ComputedIn(node, o) <==> StandsIn(node, o)) <==> PlainNode(node)
  {
    if PlainNode(node) {
      forall o ensures ComputedIn(node, o) <==> StandsIn(node, o) {
        PlainNodeHides(node, o);
      }
    } else {
      SomePrefixShows(node);
    }
  }

  ghost predicate ComputedInSome(nodes: seq<HtmlNode>, o: int) {
    exists n :: n in nodes && ComputedIn(n, o)
  }

  ghost predicate StandsInSome(nodes: seq<HtmlNode>, o: int) {
    exists n :: n in nodes && StandsIn(n, o)
  }

  method Shift(cs: seq<Range>, delta: nat) returns (shifted: seq<Range>)
    ensures forall o :: Hidden(shifted, o) <==> Hidden(cs, o - delta)
  {
    shifted := [];
    for n := 0 to |cs|
      invariant forall o :: Hidden(shifted, o) <==> Hidden(cs[..n], o - delta)
    {
      ghost var front, next := cs[..n + 1], shifted + [(cs[n].0 + delta, cs[n].1 + delta)];
      assert front == cs[..n] + [cs[n]];
      forall o ensures Hidden(next, o) <==> Hidden(front, o - delta) {
        HiddenByEither(shifted, [(cs[n].0 + delta, cs[n].1 + delta)], o);
        HiddenByEither(cs[..n], [cs[n]], o - delta);
        HiddenByOne((cs[n].0 + delta, cs[n].1 + delta), o);
        HiddenByOne(cs[n], o - delta);
      }
      shifted := shifted + [(cs[n].0 + delta, cs[n].1 + delta)];
    }
    assert cs[..|cs|] == cs;
  }

  lemma OneMoreNode(before: seq<HtmlNode>, node: HtmlNode, comments: seq<Range>, shifted: seq<Range>, o: int)
    requires Hidden(comments, o) <==> ComputedInSome(before, o)
    requires Hidden(shifted, o) <==> Hidden(CommentsOf(Value(node)), o - node.offset)
    ensures Hidden(comments + shifted, o) <==> ComputedInSome(before + [node], o)
  {
    HiddenByEither(comments, shifted, o);
    if ComputedInSome(before, o) {
      var n :| n in before && ComputedIn(n, o);
      assert n in before + [node];
    }
    if ComputedIn(node, o) {
      assert node in before + [node];
    }
  }

  lemma PlainNodesHide(nodes: seq<HtmlNode>, o: int)
    requires forall n :: n in nodes ==> PlainNode(n)
    ensures ComputedInSome(nodes, o) <==> StandsInSome(nodes, o)
  {
    forall n | n in nodes ensures ComputedIn(n, o) <==> StandsIn(n, o) {
      PlainNodeHides(n, o);
    }
  }

  ghost predicate InSpan(node: HtmlNode, o: int) {
    node.offset <= o < node.offset + |SourceText(node)|
  }

  /** No two nodes of a document share a character of it. */
  ghost predicate NodesApart(nodes: seq<HtmlNode>) {
    forall n, m, o :: n in nodes && m in nodes && InSpan(n, o) && InSpan(m, o) ==> n == m
  }

  lemma OwnIsInSpan(node: HtmlNode, o: int)
    requires StandsIn(node, o)
    ensures InSpan(node, o)
  {
    var c: Range :| c in CommentsOf(Value(node)) && IsOwn(node, c, o);
    var v: nat :| c.0 <= v < c.1 && v < |Value(node)| && o == node.offset + Own(node, v);
    OwnStands(node, v);
  }

  lemma ComputedIsInSpan(node: HtmlNode, o: int)
    requires ComputedIn(node, o)
    ensures InSpan(node, o)
  {
    CommentsFit(Value(node));
    CommentsFromAre(Value(node), 0);
    OwnStands(node, o - node.offset);
  }

  lemma SomePrefixShowsInSome(nodes: seq<HtmlNode>, node: HtmlNode)
    requires NodesApart(nodes) && node in nodes && !PlainNode(node)
    ensures exists o :: StandsInSome(nodes, o) && !ComputedInSome(nodes, o)
  {
    SomePrefixShows(node);
    var o :| StandsIn(node, o) && !ComputedIn(node, o);
    OwnIsInSpan(node, o);
    assert StandsInSome(nodes, o);
    if ComputedInSome(nodes, o) {
      var m :| m in nodes && ComputedIn(m, o);
      ComputedIsInSpan(m, o);
    }
  }

  /** The comments of the whole document are hidden as they stand in it, exactly when every node is plain. */
  lemma DocumentIsHiddenIffPlain(nodes: seq<HtmlNode>)
    requires NodesApart(nodes)
    ensures (forall o :: ComputedInSome(nodes, o) <==> StandsInSome(nodes, o)) <==>
            forall n :: n in nodes ==> PlainNode(n)
  {
    if forall n :: n in nodes ==> PlainNode(n) {
      forall o ensures ComputedInSome(nodes, o) <==> StandsInSome(nodes, o) {
        PlainNodesHide(nodes, o);
      }
    } else {
      var node :| node in nodes && !PlainNode(node);
      SomePrefixShowsInSome(nodes, node);
    }
  }

  /**
   * The intervals computed for a document. They cover exactly the characters of comments, as these
   * stand in the document, if no comment reaches into or behind a line with a stripped prefix.
   */
  method DocumentComments(nodes: seq<HtmlNode>) returns (comments: seq<Range>)
    ensures forall o :: Hidden(comments, o) <==> ComputedInSome(nodes, o)
    ensures (forall n :: n in nodes ==> PlainNode(n)) ==> forall o :: Hidden(comments, o) <==> StandsInSome(nodes, o)
  {
    comments := [];
    for n := 0 to |nodes|
      invariant forall o :: Hidden(comments, o) <==> ComputedInSome(nodes[..n], o)
    {
      var cs := CommentsIn(Value(nodes[n]));
      CommentsFromAre(Value(nodes[n]), 0);
      CommentsAreUnique(Value(nodes[n]), 0, cs, CommentsOf(Value(nodes[n])));
      var shifted := Shift(cs, nodes[n].offset);
      assert nodes[..n + 1] == nodes[..n] + [nodes[n]];
      forall o ensures Hidden(comments + shifted, o) <==> ComputedInSome(nodes[..n + 1], o) {
        OneMoreNode(nodes[..n], nodes[n], comments, shifted, o);
      }
      comments := comments + shifted;
    }
    assert nodes[..|nodes|] == nodes;
    forall o | forall n :: n in nodes ==> PlainNode(n) ensures Hidden(comments, o) <==> StandsInSome(nodes, o) {
      PlainNodesHide(nodes, o);
    }
  }

  // ---------------------------------------------------------------- the lines of the document

  /** `split` at every newline. */
  function SplitLines(s: string): (lines: seq<string>)
    ensures lines != []
  {
    if s == "" then [""]
    else
      var rest := SplitLines(s[1..]);
      if s[0] == '\n' then [""] + rest else [[s[0]] + rest[0]] + rest[1..]
  }

  lemma {:induction false} LineStartLater(first: string, rest: seq<string>, i: nat)
    requires i <= |rest|
    ensures LineStart([first] + rest, i + 1) == |first| + 1 + LineStart(rest, i)
  {
    if i == 0 {
      assert LineStart([first] + rest, 1) == LineStart([first] + rest, 0) + |first| + 1;
    } else {
      LineStartLater(first, rest, i - 1);
    }
  }

  /** One character more in front shifts every line but the first. */
  lemma LineStartShifts(c: char, rest: seq<string>, i: nat)
    requires rest != [] && i < |rest|
    ensures LineStart([[c] + rest[0]] + rest[1..], i) == LineStart(rest, i) + if i == 0 then 0 else 1
  {
    if i > 0 {
      LineStartLater([c] + rest[0], rest[1..], i - 1);
      LineStartLater(rest[0], rest[1..], i - 1);
      assert rest == [rest[0]] + rest[1..];
    }
  }

  /** A line's characters stand in the document from the line's start on. */
  lemma {:induction false} LineStands(source: string, i: nat, c: nat)
    requires i < |SplitLines(source)| && c < |SplitLines(source)[i]|
    ensures var o := LineStart(SplitLines(source), i) + c; o < |source| && source[o] == SplitLines(source)[i][c]
    decreases |source|
  {
    if source == "" {
    } else {
      var rest := SplitLines(source[1..]);
      if source[0] == '\n' {
        LineStartLater("", rest, i - 1);
        LineStands(source[1..], i - 1, c);
      } else {
        LineStartShifts(source[0], rest, i);
        if i > 0 {
          LineStands(source[1..], i, c);
        } else if c > 0 {
          LineStands(source[1..], 0, c - 1);
        }
      }
    }
  }

  ghost predicate LineTouched(hidden: int -> bool, start: nat, length: nat) {
    if length == 0 then hidden(start) else exists o :: start <= o < start + length && hidden(o)
  }

  ghost predicate LineShows(source: string, hidden: int -> bool, start: nat, length: nat) {
    exists o :: start <= o < start + length && o < |source| && !IsSpace(source[o]) && !hidden(o)
  }

  /** Outside code blocks; and nothing hidden reaches into the line, or some visible character of it is not hidden. */
  ghost predicate LineKept(source: string, fenced: set<nat>, hidden: int -> bool, i: nat)
    requires i < |SplitLines(source)|
  {
    var start, length := LineStart(SplitLines(source), i), |SplitLines(source)[i]|;
    i + 1 !in fenced && (!LineTouched(hidden, start, length) || LineShows(source, hidden, start, length))
  }

  /** The first `n` lines of the document, without those that show nothing when the offsets are hidden. */
  ghost function DocumentKept(source: string, fenced: set<nat>, hidden: int -> bool, n: nat): seq<ProseLine>
    requires n <= |SplitLines(source)|
  {
    if n == 0 then []
    else
      DocumentKept(source, fenced, hidden, n - 1) +
      if LineKept(source, fenced, hidden, n - 1) then [ProseLine(n, SplitLines(source)[n - 1])] else []
  }

  lemma TouchedAlike(hidden: int -> bool, comments: seq<Range>, start: nat, raw: string)
    requires forall o :: Hidden(comments, o) <==> hidden(o)
    ensures LineTouched(hidden, start, |raw|) <==> exists r :: r in comments && Touches(r, start, raw)
  {
    if LineTouched(hidden, start, |raw|) {
      var o :| (if raw == "" then o == start else start <= o < start + |raw|) && hidden(o);
      assert Hidden(comments, o);
      var r :| r in comments && Covers(r, o);
      assert Touches(r, start, raw);
    }
    if r :| r in comments && Touches(r, start, raw) {
      var o :| (if raw == "" then o == start else start <= o < start + |raw|) && Covers(r, o);
      assert Hidden(comments, o);
    }
  }

  ghost predicate CharStands(source: string, start: nat, raw: string, c: nat) {
    c < |raw| && start + c < |source| && source[start + c] == raw[c]
  }

  /** The line's characters are those of the document from `start` on. */
  ghost predicate StandsAt(source: string, start: nat, raw: string) {
    forall c: nat :: c < |raw| ==> CharStands(source, start, raw, c)
  }

  lemma LineStandsAt(source: string, i: nat)
    requires i < |SplitLines(source)|
    ensures StandsAt(source, LineStart(SplitLines(source), i), SplitLines(source)[i])
  {
    var start, raw := LineStart(SplitLines(source), i), SplitLines(source)[i];
    forall c: nat | c < |raw| ensures CharStands(source, start, raw, c) {
      LineStands(source, i, c);
    }
  }

  lemma ShownAlike(source: string, hidden: int -> bool, comments: seq<Range>, start: nat, raw: string)
    requires StandsAt(source, start, raw) && forall o :: Hidden(comments, o) <==> hidden(o)
    ensures LineShows(source, hidden, start, |raw|) <==> exists c :: ShowsAt(comments, start, raw, c)
  {
    if LineShows(source, hidden, start, |raw|) {
      var o :| start <= o < start + |raw| && o < |source| && !IsSpace(source[o]) && !hidden(o);
      assert CharStands(source, start, raw, o - start);
      assert ShowsAt(comments, start, raw, o - start);
    }
    if c :| ShowsAt(comments, start, raw, c) {
      assert CharStands(source, start, raw, c);
      assert !hidden(start + c);
    }
  }

  /** However the intervals are listed, only what they hide matters. */
  lemma LineAlike(source: string, fenced: set<nat>, hidden: int -> bool, comments: seq<Range>, i: nat)
    requires i < |SplitLines(source)| && forall o :: Hidden(comments, o) <==> hidden(o)
    ensures LineKept(source, fenced, hidden, i) <==> Kept(SplitLines(source), comments, fenced, i)
  {
    TouchedAlike(hidden, comments, LineStart(SplitLines(source), i), SplitLines(source)[i]);
    LineStandsAt(source, i);
    ShownAlike(source, hidden, comments, LineStart(SplitLines(source), i), SplitLines(source)[i]);
  }

  lemma {:induction false} KeptLinesAlike(source: string, fenced: set<nat>, hidden: int -> bool, comments: seq<Range>,
          n: nat)
    requires n <= |SplitLines(source)|
    requires forall i :: 0 <= i < n ==>
      (LineKept(source, fenced, hidden, i) <==> Kept(SplitLines(source), comments, fenced, i))
    ensures DocumentKept(source, fenced, hidden, n) == KeptLines(SplitLines(source), comments, fenced, n)
  {
    if n == 0 {
    } else {
      KeptLinesAlike(source, fenced, hidden, comments, n - 1);
    }
  }

  lemma KeptAlike(source: string, fenced: set<nat>, hidden: int -> bool, comments: seq<Range>)
    requires forall o :: Hidden(comments, o) <==> hidden(o)
    ensures var lines := SplitLines(source);
      DocumentKept(source, fenced, hidden, |lines|) == KeptLines(lines, comments, fenced, |lines|)
  {
    forall i | 0 <= i < |SplitLines(source)|
      ensures LineKept(source, fenced, hidden, i) <==> Kept(SplitLines(source), comments, fenced, i)
    {
      LineAlike(source, fenced, hidden, comments, i);
    }
    KeptLinesAlike(source, fenced, hidden, comments, |SplitLines(source)|);
  }

  /**
   * The kept lines of a document. They are those that show something once the comments are gone, as
   * the comments stand in the document, if none reaches into or behind a line with a stripped prefix.
   */
  method DocumentProseLines(source: string, nodes: seq<HtmlNode>, fenced: set<nat>) returns (kept: seq<ProseLine>)
    ensures kept == DocumentKept(source, fenced, o => ComputedInSome(nodes, o), |SplitLines(source)|)
    ensures (forall n :: n in nodes ==> PlainNode(n)) ==>
      kept == DocumentKept(source, fenced, o => StandsInSome(nodes, o), |SplitLines(source)|)
  {
    var comments := DocumentComments(nodes);
    kept := MarkdownProseLines(SplitLines(source), comments, fenced);
    KeptAlike(source, fenced, o => ComputedInSome(nodes, o), comments);
    if forall n :: n in nodes ==> PlainNode(n) {
      KeptAlike(source, fenced, o => StandsInSome(nodes, o), comments);
    }
  }

  // ---------------------------------------------------------------- a comment in a list item

  const ITEM := "- item\n\n  <!-- a\n  b -->"

  /** The comment of the list item: the parser strips the item's indentation from its second line. */
  const INDENTED := HtmlNode(10, "<!-- a", [Part("  ", "b -->")])

  /** The value of that node. */
  const ITEM_COMMENT := "<!-- a\nb -->"

  lemma IndentedStands()
    ensures Stands(ITEM, INDENTED) && Value(INDENTED) == ITEM_COMMENT && SourceText(INDENTED) == "<!-- a\n  b -->"
  {
    assert ValueOf(INDENTED.rest[1..]) == "" && SourceOf(INDENTED.rest[1..]) == "";
  }

  lemma ItemCommentMarks()
    ensures |ITEM_COMMENT| == 12 && Occurs(OPEN, ITEM_COMMENT, 0) && Occurs(CLOSE, ITEM_COMMENT, 9)
  {
    assert ITEM_COMMENT[0..4] == OPEN;
    assert ITEM_COMMENT[9..12] == CLOSE;
  }

  lemma ItemCommentClosesOnce(k: nat)
    requires 4 <= k < 9
    ensures !Occurs(CLOSE, ITEM_COMMENT, k)
  {
    assert ITEM_COMMENT[k] != '-';
    assert ITEM_COMMENT[k..k + 3][0] == ITEM_COMMENT[k];
  }

  lemma IndentedComment()
    ensures CommentsOf(Value(INDENTED)) == [(0, 12)]
  {
    IndentedStands();
    ItemCommentMarks();
    forall k | 4 <= k < 9 ensures !Occurs(CLOSE, ITEM_COMMENT, k) {
      ItemCommentClosesOnce(k);
    }
    assert IndexOf(OPEN, ITEM_COMMENT, 0) == 0;
    assert EndOf(ITEM_COMMENT, 0) == 12;
    assert CommentsFrom(ITEM_COMMENT, 12) == [];
  }

  lemma {:induction false} SplitOne(line: string)
    requires '\n' !in line
    ensures SplitLines(line) == [line]
  {
    if line == "" {
    } else {
      SplitOne(line[1..]);
      assert [line[0]] + line[1..] == line;
    }
  }

  lemma {:induction false} SplitAppends(line: string, rest: string)
    requires '\n' !in line
    ensures SplitLines(line + "\n" + rest) == [line] + SplitLines(rest)
  {
    var s := line + "\n" + rest;
    if line == "" {
      assert s[1..] == rest;
    } else {
      SplitAppends(line[1..], rest);
      assert s[1..] == line[1..] + "\n" + rest;
      assert [line[0]] + line[1..] == line;
    }
  }

  lemma ItemIsJoined()
    ensures ITEM == "- item" + "\n" + ("" + "\n" + ("  <!-- a" + "\n" + "  b -->"))
  {
  }

  /** The last line of the text, by its number, length and start. */
  ghost predicate LastLine(text: string, i: nat, length: nat, start: nat) {
    && |SplitLines(text)| == i + 1 && |SplitLines(text)[i]| == length
    && LineStart(SplitLines(text), i) == start
  }

  lemma LastLineBehind(line: string, rest: string, i: nat, length: nat, start: nat)
    requires '\n' !in line && LastLine(rest, i, length, start)
    ensures LastLine(line + "\n" + rest, i + 1, length, |line| + 1 + start)
  {
    SplitAppends(line, rest);
    LineStartLater(line, SplitLines(rest), i);
  }

  lemma TwoLines(first: string, last: string)
    requires '\n' !in first && '\n' !in last
    ensures LastLine(first + "\n" + last, 1, |last|, |first| + 1)
  {
    SplitOne(last);
    LastLineBehind(first, last, 0, |last|, 0);
  }

  lemma ItemLines()
    ensures LastLine(ITEM, 3, 7, 17)
  {
    ItemIsJoined();
    TwoLines("  <!-- a", "  b -->");
    LastLineBehind("", "  <!-- a" + "\n" + "  b -->", 1, 7, 9);
    LastLineBehind("- item", "" + "\n" + ("  <!-- a" + "\n" + "  b -->"), 2, 7, 10);
  }

  lemma IndentedOwn()
    ensures forall o :: 19 <= o < 24 ==> StandsIn(INDENTED, o)
  {
    IndentedStands();
    IndentedComment();
    forall o | 19 <= o < 24 ensures StandsIn(INDENTED, o) {
      var v: nat := o - 12;
      assert Own(INDENTED, v) == v + 2;
      assert (0, 12) in CommentsOf(Value(INDENTED)) && IsOwn(INDENTED, (0, 12), o);
    }
  }

  lemma IndentedIsComputed()
    ensures LineShows(ITEM, o => ComputedInSome([INDENTED], o), 17, 7)
  {
    IndentedComment();
    HiddenByOne((0, 12), 13);
    assert ITEM[23] == '>' && !ComputedIn(INDENTED, 23);
    assert !ComputedInSome([INDENTED], 23);
  }

  lemma NothingShows(source: string, hidden: int -> bool, start: nat, length: nat)
    requires forall o :: start <= o < start + length && o < |source| ==> IsSpace(source[o]) || hidden(o)
    ensures !LineShows(source, hidden, start, length)
  {
  }

  lemma StandsInOne(node: HtmlNode, o: int)
    ensures StandsInSome([node], o) <==> StandsIn(node, o)
  {
    assert node in [node];
  }

  lemma IndentationIsSpace()
    ensures |ITEM| == 24 && IsSpace(ITEM[17]) && IsSpace(ITEM[18])
  {
    assert ITEM[17] == ' ' && ITEM[18] == ' ';
  }

  lemma OnlyCommentHides(source: string, node: HtmlNode, start: nat, own: nat, end: nat)
    requires start <= own < end <= |source|
    requires forall o :: start <= o < own ==> IsSpace(source[o])
    requires forall o :: own <= o < end ==> StandsIn(node, o)
    ensures LineTouched(o => StandsInSome([node], o), start, end - start)
    ensures !LineShows(source, o => StandsInSome([node], o), start, end - start)
  {
    var hidden := (o: int) => StandsInSome([node], o);
    forall o | own <= o < end ensures hidden(o) {
      StandsInOne(node, o);
    }
    assert hidden(own);
    NothingShows(source, hidden, start, end - start);
  }

  lemma IndentedIsComment()
    ensures LineTouched(o => StandsInSome([INDENTED], o), 17, 7)
    ensures !LineShows(ITEM, o => StandsInSome([INDENTED], o), 17, 7)
  {
    IndentedOwn();
    IndentationIsSpace();
    OnlyCommentHides(ITEM, INDENTED, 17, 19, 24);
  }

  /**
   * The last line of the item holds nothing but the end of the comment, and is kept: of the comment,
   * which reaches behind a stripped indentation, two characters are not hidden.
   */
  lemma IndentedCommentShows()
    ensures |SplitLines(ITEM)| == 4 && Stands(ITEM, INDENTED) && !PlainNode(INDENTED)
    ensures LineKept(ITEM, {}, o => ComputedInSome([INDENTED], o), 3)
    ensures !LineKept(ITEM, {}, o => StandsInSome([INDENTED], o), 3)
  {
    ItemLines();
    IndentedStands();
    IndentedIsComputed();
    IndentedIsComment();
    IndentedComment();
    assert (0, 12) in CommentsOf(Value(INDENTED)) && Begins(INDENTED.rest, 0) == 1;
  }
}
