/** Replacing link destinations inside Markdown text without touching anything else. */
module LinkRewriting {
  import opened Wrappers
  import opened Texts

  // ---------------------------------------------------------------- splicing

  /** New text for a half-open range of the document. */
  datatype Replacement = Replacement(start: nat, end: nat, value: string)

  /** Lies entirely before another, and starts strictly earlier. */
  predicate Precedes(a: Replacement, b: Replacement) {
    a.start < b.start && a.end <= b.start
  }

  ghost predicate InBounds(source: string, rs: seq<Replacement>) {
    forall r :: r in rs ==> r.start <= r.end <= |source|
  }

  ghost predicate Disjoint(rs: seq<Replacement>) {
    forall i, j :: 0 <= i < j < |rs| ==> Precedes(rs[i], rs[j]) || Precedes(rs[j], rs[i])
  }

  ghost predicate Ascending(rs: seq<Replacement>) {
    forall i, j :: 0 <= i < j < |rs| ==> Precedes(rs[i], rs[j])
  }

  /** All replacements at once: the text between them is copied from the original document. */
  function Substitute(source: string, rs: seq<Replacement>, from: nat): string
    requires from <= |source|
  {
    if rs == [] then source[from..]
    else if from <= rs[0].start <= rs[0].end <= |source| then
      source[from..rs[0].start] + rs[0].value + Substitute(source, rs[1..], rs[0].end)
    else source[from..]
  }

  lemma Regroup(a: string, b: string, c: string, d: string)
    ensures a + b + c + d == a + (b + c + d)
  {
  }

  /** Up to the first replacement, the result is the original text. */
  lemma PrefixIsCopied(source: string, rs: seq<Replacement>, from: nat, to: nat)
    requires from <= to <= |source|
    requires rs != [] ==> to <= rs[0].start <= rs[0].end <= |source|
    ensures Substitute(source, rs, from) == source[from..to] + Substitute(source, rs, to)
  {
    if rs == [] {
      assert source[from..] == source[from..to] + source[to..];
    } else {
      assert source[from..rs[0].start] == source[from..to] + source[to..rs[0].start];
      Regroup(source[from..to], source[to..rs[0].start], rs[0].value, Substitute(source, rs[1..], rs[0].end));
    }
  }

  /** Splicing in a replacement before those already made does not disturb them. */
  lemma SpliceFront(source: string, r: Replacement, rest: seq<Replacement>)
    requires InBounds(source, [r] + rest) && Ascending([r] + rest)
    ensures var projected := Substitute(source, rest, 0);
      r.end <= |projected| &&
      projected[..r.start] + r.value + projected[r.end..] == Substitute(source, [r] + rest, 0)
  {
    assert r in [r] + rest;
    if rest != [] {
      assert Precedes(([r] + rest)[0], ([r] + rest)[1]) && rest[0] in [r] + rest;
    }
    var projected := Substitute(source, rest, 0);
    PrefixIsCopied(source, rest, 0, r.end);
    assert projected == source[..r.end] + Substitute(source, rest, r.end);
    assert projected[..r.start] == source[..r.start];
    assert projected[r.end..] == Substitute(source, rest, r.end);
    assert ([r] + rest)[1..] == rest && source[0..r.start] == source[..r.start];
  }

  lemma SpliceNext(source: string, ascending: seq<Replacement>, i: nat)
    requires InBounds(source, ascending) && Ascending(ascending) && i < |ascending|
    ensures var r, projected := ascending[i], Substitute(source, ascending[i + 1..], 0);
      r.start <= r.end <= |projected| &&
      projected[..r.start] + r.value + projected[r.end..] == Substitute(source, ascending[i..], 0)
  {
    var r, rest := ascending[i], ascending[i + 1..];
    assert ascending[i..] == [r] + rest;
    forall q | q in [r] + rest ensures q.start <= q.end <= |source| {
      assert q in ascending;
    }
    SpliceFront(source, r, rest);
  }

  function Insert(r: Replacement, descending: seq<Replacement>): (s: seq<Replacement>)
    ensures multiset(s) == multiset(descending) + multiset{r}
  {
    if descending == [] || descending[0].start <= r.start then [r] + descending
    else
      assert descending == [descending[0]] + descending[1..];
      [descending[0]] + Insert(r, descending[1..])
  }

  /** By descending start. */
  function SortDescending(rs: seq<Replacement>): (s: seq<Replacement>)
    ensures multiset(s) == multiset(rs)
  {
    if rs == [] then []
    else
      assert rs == [rs[0]] + rs[1..];
      Insert(rs[0], SortDescending(rs[1..]))
  }

  function Reverse(rs: seq<Replacement>): (s: seq<Replacement>)
    ensures |s| == |rs| && forall i :: 0 <= i < |rs| ==> s[i] == rs[|rs| - 1 - i]
    ensures multiset(s) == multiset(rs)
  {
    if rs == [] then []
    else
      assert rs == [rs[0]] + rs[1..];
      Reverse(rs[1..]) + [rs[0]]
  }

  ghost predicate Descending(rs: seq<Replacement>) {
    forall i, j :: 0 <= i < j < |rs| ==> Precedes(rs[j], rs[i])
  }

  lemma {:induction false} InsertIsDescending(r: Replacement, s: seq<Replacement>)
    requires Descending(s)
    requires forall q :: q in s ==> Precedes(q, r) || Precedes(r, q)
    ensures Descending(Insert(r, s))
  {
    if s != [] && s[0].start > r.start {
      InsertIsDescending(r, s[1..]);
      var rest := Insert(r, s[1..]);
      forall q | q in rest ensures Precedes(q, s[0]) {
        assert q in multiset(rest);
        if q != r {
          assert q in s[1..];
        } else {
          assert s[0] in s;
        }
      }
    } else if s != [] {
      assert s[0] in s;
      forall i | 0 <= i < |s| ensures Precedes(s[i], r) {
        assert s[i] in s;
        if i > 0 {
          assert Precedes(s[i], s[0]);
        }
      }
    }
  }

  lemma {:induction false} SortIsDescending(rs: seq<Replacement>)
    requires Disjoint(rs)
    ensures Descending(SortDescending(rs))
  {
    if rs == [] {
    } else {
      assert Disjoint(rs[1..]);
      SortIsDescending(rs[1..]);
      forall q | q in SortDescending(rs[1..]) ensures Precedes(q, rs[0]) || Precedes(rs[0], q) {
        assert q in multiset(rs[1..]);
        var i :| 0 <= i < |rs[1..]| && rs[1..][i] == q;
        assert rs[i + 1] == q;
      }
      InsertIsDescending(rs[0], SortDescending(rs[1..]));
    }
  }

  /** The replacements by ascending start. */
  function InOrder(rs: seq<Replacement>): (s: seq<Replacement>)
    ensures multiset(s) == multiset(rs)
  {
    Reverse(SortDescending(rs))
  }

  lemma InOrderIsAscending(source: string, rs: seq<Replacement>)
    requires Disjoint(rs) && InBounds(source, rs)
    ensures Ascending(InOrder(rs)) && InBounds(source, InOrder(rs))
  {
    SortIsDescending(rs);
    forall r | r in InOrder(rs) ensures r.start <= r.end <= |source| {
      assert r in multiset(rs);
    }
  }

  lemma FirstIsUnique(a: seq<Replacement>, b: seq<Replacement>)
    requires a != [] && b != [] && Ascending(a) && Ascending(b)
    requires a[0] in b && b[0] in a
    ensures a[0] == b[0]
  {
    var i :| 0 <= i < |a| && a[i] == b[0];
    var j :| 0 <= j < |b| && b[j] == a[0];
    assert i > 0 ==> Precedes(a[0], a[i]);
    assert j > 0 ==> Precedes(b[0], b[j]);
  }

  lemma MultisetOfTail(a: seq<Replacement>)
    requires a != []
    ensures a == [a[0]] + a[1..] && multiset(a[1..]) == multiset(a) - multiset{a[0]}
  {
    assert a == [a[0]] + a[1..];
  }

  /** Replacements arranged ascending are arranged uniquely. */
  lemma {:induction false} AscendingIsUnique(a: seq<Replacement>, b: seq<Replacement>)
    requires multiset(a) == multiset(b) && Ascending(a) && Ascending(b)
    ensures a == b
  {
    assert |a| == |multiset(a)| == |multiset(b)| == |b|;
    if a == [] {
    } else {
      assert a[0] in multiset(b) && b[0] in multiset(a);
      FirstIsUnique(a, b);
      MultisetOfTail(a);
      MultisetOfTail(b);
      AscendingIsUnique(a[1..], b[1..]);
    }
  }

  lemma HoweverArranged(source: string, rs: seq<Replacement>)
    requires Disjoint(rs) && InBounds(source, rs)
    ensures forall a :: multiset(a) == multiset(rs) && Ascending(a) ==>
      Substitute(source, a, 0) == Substitute(source, InOrder(rs), 0)
  {
    InOrderIsAscending(source, rs);
    forall a | multiset(a) == multiset(rs) && Ascending(a)
      ensures Substitute(source, a, 0) == Substitute(source, InOrder(rs), 0)
    {
      AscendingIsUnique(a, InOrder(rs));
    }
  }

  /** Splicing from the last replacement to the first equals substituting all of them at once. */
  method ApplyReplacements(source: string, rs: seq<Replacement>) returns (projected: string)
    requires Disjoint(rs) && InBounds(source, rs)
    ensures forall a :: multiset(a) == multiset(rs) && Ascending(a) ==> projected == Substitute(source, a, 0)
    ensures projected == Substitute(source, InOrder(rs), 0)
  {
    var sorted := SortDescending(rs);
    ghost var ascending := InOrder(rs);
    InOrderIsAscending(source, rs);
    projected := source;
    assert ascending[|sorted|..] == [];
    for k := 0 to |sorted|
      invariant projected == Substitute(source, ascending[|sorted| - k..], 0)
    {
      var r := sorted[k];
      SpliceNext(source, ascending, |sorted| - (k + 1));
      projected := projected[..r.start] + r.value + projected[r.end..];
    }
    assert ascending[0..] == ascending;
    HoweverArranged(source, rs);
  }

  /** The order in which links were visited does not show in the result. */
  lemma VisitOrderIsIrrelevant(source: string, rs: seq<Replacement>, qs: seq<Replacement>)
    requires Disjoint(rs) && InBounds(source, rs)
    requires Disjoint(qs) && InBounds(source, qs)
    requires multiset(rs) == multiset(qs)
    ensures Substitute(source, InOrder(rs), 0) == Substitute(source, InOrder(qs), 0)
  {
    InOrderIsAscending(source, rs);
    InOrderIsAscending(source, qs);
    AscendingIsUnique(InOrder(rs), InOrder(qs));
  }

  // ---------------------------------------------------------------- the destination of one link

  datatype NodeType = Link | Image | Definition

  datatype DestinationRange = DestinationRange(start: nat, end: nat)

  /** The level of an opening or closing character; others do not count. */
  ghost function Level(c: char, open: char, close: char): int {
    if c == open then 1 else if c == close then -1 else 0
  }

  /** Opening minus closing characters from `i` to `j`, a backslash hiding the character after it. */
  ghost function Balance(s: string, i: nat, j: nat, open: char, close: char): int
    decreases j - i
  {
    if i >= j || j > |s| then 0
    else if s[i] == '\\' then Balance(s, i + 2, j, open, close)
    else Level(s[i], open, close) + Balance(s, i + 1, j, open, close)
  }

  /** A left-to-right scan from `i` that steps over escaped characters stands at `j`. */
  ghost predicate Scans(s: string, i: nat, j: nat)
    decreases j - i
  {
    if i >= j then i == j
    else i < |s| && Scans(s, if s[i] == '\\' then i + 2 else i + 1, j)
  }

  lemma {:induction false} ScanStep(s: string, i: nat, j: nat, open: char, close: char)
    requires j < |s| && Scans(s, i, j) && s[j] != '\\'
    ensures Scans(s, i, j + 1)
    ensures Balance(s, i, j + 1, open, close) == Balance(s, i, j, open, close) + Level(s[j], open, close)
    decreases j - i
  {
    if i >= j {
    } else {
      ScanStep(s, if s[i] == '\\' then i + 2 else i + 1, j, open, close);
    }
  }

  lemma {:induction false} ScanEscape(s: string, i: nat, j: nat, open: char, close: char)
    requires j + 1 < |s| && Scans(s, i, j) && s[j] == '\\'
    ensures Scans(s, i, j + 2)
    ensures Balance(s, i, j + 2, open, close) == Balance(s, i, j, open, close)
    decreases j - i
  {
    if i >= j {
    } else {
      ScanEscape(s, if s[i] == '\\' then i + 2 else i + 1, j, open, close);
    }
  }

  function IndexOf(s: string, c: char, from: nat): (i: int)
    ensures i == -1 || (from <= i < |s| && s[i] == c)
    ensures forall k :: from <= k < |s| && (i == -1 || k < i) ==> s[k] != c
    decreases |s| - from
  {
    if from >= |s| then -1 else if s[from] == c then from else IndexOf(s, c, from + 1)
  }

  function SkipWhitespace(s: string, start: nat): (i: nat)
    requires start <= |s|
    ensures start <= i <= |s| && (i < |s| ==> !IsSpace(s[i]))
    decreases |s| - start
  {
    if start < |s| && IsSpace(s[start]) then SkipWhitespace(s, start + 1) else start
  }

  /** Between `first` and `end`, wherever the scan stands, some bracket is still open. */
  ghost predicate OpenUntil(source: string, first: nat, end: nat) {
    forall k :: first < k < end && k < |source| && Scans(source, first, k) ==> Balance(source, first, k, '[', ']') > 0
  }

  /** An unescaped closing bracket that returns the levels, counted from the first bracket, to zero. */
  ghost predicate Closes(source: string, k: nat) {
    var first := IndexOf(source, '[', 0);
    && 0 <= first < k < |source| && source[k] == ']'
    && Scans(source, first, k) && Balance(source, first, k + 1, '[', ']') == 0
  }

  /** The bracket that ends the label: the first one that closes it. */
  ghost predicate EndsLabel(source: string, r: nat) {
    Closes(source, r) && forall k: nat :: k < r ==> !Closes(source, k)
  }

  /** While some bracket is open at every stop of the scan, none of the stops closes the label. */
  lemma OpenDoesNotClose(source: string, first: nat, end: nat)
    requires first == IndexOf(source, '[', 0) && OpenUntil(source, first, end)
    requires end <= |source| || (source != "" && source[|source| - 1] == '\\')
    requires end <= |source| ==>
      Scans(source, first, end) && (end > first ==> Balance(source, first, end, '[', ']') > 0)
    ensures forall k: nat :: k < end ==> !Closes(source, k)
  {
    forall k: nat | k < end && Closes(source, k) ensures false {
      ScanStep(source, first, k, '[', ']');
    }
  }

  lemma {:induction false} EscapedIsSkipped(s: string, i: nat, j: nat)
    requires j < |s| && Scans(s, i, j) && s[j] == '\\'
    ensures !Scans(s, i, j + 1)
    decreases j - i
  {
    if i >= j {
    } else {
      EscapedIsSkipped(s, if s[i] == '\\' then i + 2 else i + 1, j);
    }
  }

  /** Where the label of a link, image or definition ends; -1 when it does not. */
  method LabelEnd(source: string) returns (r: int)
    ensures r == -1 || 0 <= r < |source|
    ensures r >= 0 ==> EndsLabel(source, r)
    ensures r == -1 ==> forall k: nat :: !Closes(source, k)
  {
    var first := IndexOf(source, '[', 0);
    if first == -1 {
      return -1;
    }
    var depth, index: nat := 0, first;
    while index < |source|
      invariant first <= index <= |source| + 1
      invariant index <= |source| ==> Scans(source, first, index) && depth == Balance(source, first, index, '[', ']')
      invariant index == first ==> depth == 0
      invariant index <= |source| || source[|source| - 1] == '\\'
      invariant index > first && index <= |source| ==> depth > 0
      invariant OpenUntil(source, first, index)
    {
      var c := source[index];
      if c == '\\' {
        if index + 1 < |source| {
          ScanEscape(source, first, index, '[', ']');
        }
        EscapedIsSkipped(source, first, index);
        index := index + 2;
      } else {
        ScanStep(source, first, index, '[', ']');
        if c == '[' {
          depth := depth + 1;
        } else if c == ']' {
          depth := depth - 1;
          if depth == 0 {
            OpenDoesNotClose(source, first, index);
            return index;
          }
        }
        index := index + 1;
      }
    }
    OpenDoesNotClose(source, first, index);
    r := -1;
  }

  /** What separates the label from the destination: an adjacent parenthesis, or a colon further on. */
  ghost predicate Separates(s: string, nodeType: NodeType, labelEnd: nat, p: nat) {
    if nodeType.Definition? then labelEnd < p && p == IndexOf(s, ':', labelEnd + 1)
    else p == labelEnd + 1 && p < |s| && s[p] == '('
  }

  ghost predicate SkipsTo(s: string, from: nat, start: nat) {
    && from <= start <= |s|
    && (forall k :: from <= k < start ==> IsSpace(s[k]))
    && (start < |s| ==> !IsSpace(s[start]))
  }

  /** A destination starts behind the separator and the white space after it. */
  ghost predicate StartsAt(s: string, nodeType: NodeType, start: nat) {
    exists labelEnd: nat, p: nat ::
      EndsLabel(s, labelEnd) && Separates(s, nodeType, labelEnd, p) && SkipsTo(s, p + 1, start)
  }

  lemma LabelEndIsUnique(s: string, a: nat, b: nat)
    requires EndsLabel(s, a) && EndsLabel(s, b)
    ensures a == b
  {
  }

  lemma {:induction false} SkipsWhitespace(s: string, from: nat)
    requires from <= |s|
    ensures SkipsTo(s, from, SkipWhitespace(s, from))
    decreases |s| - from
  {
    if from == |s| || !IsSpace(s[from]) {
    } else {
      SkipsWhitespace(s, from + 1);
    }
  }

  /** Where the destination starts, if the node has the expected shape. */
  method DestinationStart(rawNode: string, nodeType: NodeType) returns (start: Option<nat>)
    ensures start.Some? ==> StartsAt(rawNode, nodeType, start.value)
    ensures start.None? ==> forall k :: !StartsAt(rawNode, nodeType, k)
  {
    var endOfLabel := LabelEnd(rawNode);
    if endOfLabel == -1 {
      return None;
    }
    forall k: nat | EndsLabel(rawNode, k) ensures k == endOfLabel {
      LabelEndIsUnique(rawNode, k, endOfLabel);
    }
    var separator: int := endOfLabel + 1;
    if nodeType.Definition? {
      separator := IndexOf(rawNode, ':', endOfLabel + 1);
      if separator == -1 {
        return None;
      }
    } else if endOfLabel + 1 >= |rawNode| || rawNode[endOfLabel + 1] != '(' {
      return None;
    }
    assert Separates(rawNode, nodeType, endOfLabel, separator);
    SkipsWhitespace(rawNode, separator + 1);
    start := Some(SkipWhitespace(rawNode, separator + 1));
  }

  ghost predicate Angled(s: string, r: DestinationRange) {
    && 0 < r.start <= r.end < |s| && s[r.start - 1] == '<' && s[r.end] == '>'
    && Scans(s, r.start, r.end) && forall k :: r.start <= k < r.end && Scans(s, r.start, k) ==> s[k] != '>'
  }

  /** An unescaped parenthesis or white space at level zero, where a bare destination must end. */
  ghost predicate Delimits(s: string, start: nat, k: nat) {
    && start <= k < |s| && Scans(s, start, k) && s[k] != '\\'
    && Balance(s, start, k, '(', ')') == 0 && (s[k] == ')' || IsSpace(s[k]))
  }

  /** Parentheses never close more than was opened, and the range ends at the first delimiter. */
  ghost predicate Bare(s: string, r: DestinationRange) {
    && r.start <= r.end <= |s|
    && (r.end < |s| ==> Delimits(s, r.start, r.end))
    && (forall k :: r.start <= k < r.end ==> !Delimits(s, r.start, k))
    && (forall k :: r.start <= k < r.end && Scans(s, r.start, k) ==> Balance(s, r.start, k, '(', ')') >= 0)
  }

  ghost predicate DestinationFrom(rawNode: string, start: nat, r: DestinationRange) {
    if start < |rawNode| && rawNode[start] == '<' then r.start == start + 1 && Angled(rawNode, r)
    else r.start == start && Bare(rawNode, r)
  }

  /** The destination of a node, angle-bracketed or bare, never reaching outside the node. */
  ghost predicate IsDestination(rawNode: string, nodeType: NodeType, r: DestinationRange) {
    exists start :: StartsAt(rawNode, nodeType, start) && DestinationFrom(rawNode, start, r)
  }

  lemma StartIsUnique(s: string, nodeType: NodeType, a: nat, b: nat)
    requires StartsAt(s, nodeType, a) && StartsAt(s, nodeType, b)
    ensures a == b
  {
    var e, p: nat :| EndsLabel(s, e) && Separates(s, nodeType, e, p) && SkipsTo(s, p + 1, a);
    var f, q: nat :| EndsLabel(s, f) && Separates(s, nodeType, f, q) && SkipsTo(s, q + 1, b);
    LabelEndIsUnique(s, e, f);
  }

  method AngledDestination(s: string, open: nat) returns (r: Option<DestinationRange>)
    requires open < |s| && s[open] == '<'
    ensures r.Some? ==> r.value.start == open + 1 && Angled(s, r.value)
    ensures r.None? ==> forall range: DestinationRange :: range.start == open + 1 ==> !Angled(s, range)
  {
    var start, index: nat := open + 1, open + 1;
    while index < |s|
      invariant start <= index <= |s| + 1
      invariant index <= |s| ==> Scans(s, start, index)
      invariant forall k :: start <= k < index && k < |s| && Scans(s, start, k) ==> s[k] != '>'
    {
      if s[index] == '\\' {
        if index + 1 < |s| {
          ScanEscape(s, start, index, '(', ')');
        }
        EscapedIsSkipped(s, start, index);
        index := index + 2;
      } else if s[index] == '>' {
        return Some(DestinationRange(start, index));
      } else {
        ScanStep(s, start, index, '(', ')');
        index := index + 1;
      }
    }
    r := None;
  }

  method BareDestination(s: string, start: nat) returns (r: DestinationRange)
    requires start <= |s|
    ensures r.start == start && Bare(s, r)
  {
    var depth, index: nat := 0, start;
    while index < |s|
      invariant start <= index <= |s| + 1
      invariant index <= |s| ==> Scans(s, start, index) && depth == Balance(s, start, index, '(', ')')
      invariant depth >= 0
      invariant forall k :: start <= k < index ==> !Delimits(s, start, k)
      invariant forall k :: start <= k < index && k < |s| && Scans(s, start, k) ==> Balance(s, start, k, '(', ')') >= 0
    {
      var c := s[index];
      if c == '\\' {
        if index + 1 < |s| {
          ScanEscape(s, start, index, '(', ')');
        }
        EscapedIsSkipped(s, start, index);
        index := index + 2;
      } else {
        ScanStep(s, start, index, '(', ')');
        if c == '(' {
          depth := depth + 1;
        } else if c == ')' {
          if depth == 0 {
            return DestinationRange(start, index);
          }
          depth := depth - 1;
        } else if IsSpace(c) && depth == 0 {
          return DestinationRange(start, index);
        }
        index := index + 1;
      }
    }
    r := DestinationRange(start, |s|);
  }

  /**
   * The destination inside a node's text, or a thrown error when there is none. In angle brackets
   * it ends at the first unescaped closing one; bare, and ended before the node's end, it has
   * balanced parentheses and ends at white space or at the delimiter that closes the link.
   */
  method FindDestination(rawNode: string, nodeType: NodeType) returns (r: Option<DestinationRange>)
    ensures r.Some? ==> IsDestination(rawNode, nodeType, r.value)
    ensures r.None? ==> forall range :: !IsDestination(rawNode, nodeType, range)
  {
    var found := DestinationStart(rawNode, nodeType);
    if found.None? {
      return None;
    }
    forall k: nat | StartsAt(rawNode, nodeType, k) ensures k == found.value {
      StartIsUnique(rawNode, nodeType, k, found.value);
    }
    if found.value < |rawNode| && rawNode[found.value] == '<' {
      r := AngledDestination(rawNode, found.value);
    } else {
      var range := BareDestination(rawNode, found.value);
      r := Some(range);
    }
  }

  lemma RangeIsUnique(s: string, start: nat, a: DestinationRange, b: DestinationRange)
    requires DestinationFrom(s, start, a) && DestinationFrom(s, start, b)
    ensures a == b && a.start <= a.end <= |s|
  {
  }

  /** A node has at most one destination, and it lies inside the node. */
  lemma DestinationIsUnique(rawNode: string, nodeType: NodeType, a: DestinationRange, b: DestinationRange)
    requires IsDestination(rawNode, nodeType, a) && IsDestination(rawNode, nodeType, b)
    ensures a == b && a.start <= a.end <= |rawNode|
  {
    var x: nat :| StartsAt(rawNode, nodeType, x) && DestinationFrom(rawNode, x, a);
    var y: nat :| StartsAt(rawNode, nodeType, y) && DestinationFrom(rawNode, y, b);
    StartIsUnique(rawNode, nodeType, x, y);
    RangeIsUnique(rawNode, x, a, b);
  }

  /** The bracket inside the code span ends the label. */
  lemma CodeSpanEndsLabel()
    ensures EndsLabel("[a `]` b](url)", 4)
  {
    var s := "[a `]` b](url)";
    assert IndexOf(s, '[', 0) == 0;
    ScanStep(s, 0, 0, '[', ']');
    ScanStep(s, 0, 1, '[', ']');
    ScanStep(s, 0, 2, '[', ']');
    ScanStep(s, 0, 3, '[', ']');
    ScanStep(s, 0, 4, '[', ']');
  }

  /**
   * The scan knows nothing of code spans, in which brackets do not count: for a label that holds one
   * in a code span, a valid link by section 6.3 of CommonMark 0.31.2, there is no destination.
   */
  lemma CodeSpanHidesDestination()
    ensures forall r :: !IsDestination("[a `]` b](url)", Link, r)
  {
    var s, first: nat := "[a `]` b](url)", 4;
    CodeSpanEndsLabel();
    forall e: nat | EndsLabel(s, e) ensures e == first {
      LabelEndIsUnique(s, e, first);
    }
  }
}
