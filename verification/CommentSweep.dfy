/** Which Markdown lines still show text once HTML comments and code blocks are gone. */
module CommentSweep {
  import opened Texts

  /** A half-open range of offsets, in the document or in one line. */
  type Range = (nat, nat)

  /** A kept line with its one-based number. */
  datatype ProseLine = ProseLine(index: nat, raw: string)

  predicate Covers(r: Range, offset: int) {
    r.0 <= offset < r.1
  }

  /** Some range covers the offset. */
  ghost predicate Hidden(ranges: seq<Range>, offset: int) {
    exists r :: r in ranges && Covers(r, offset)
  }

  // ---------------------------------------------------------------- what should be kept

  /** The document offset at which a line starts: every line before it and its newline. */
  function LineStart(lines: seq<string>, i: nat): nat
    requires i <= |lines|
  {
    if i == 0 then 0 else LineStart(lines, i - 1) + |lines[i - 1]| + 1
  }

  /** The comment covers a character of the line, or an empty line altogether. */
  ghost predicate Touches(comment: Range, start: nat, raw: string) {
    if raw == "" then Covers(comment, start)
    else exists o :: start <= o < start + |raw| && Covers(comment, o)
  }

  /** A visible character stands at the column, outside every comment. */
  ghost predicate ShowsAt(comments: seq<Range>, start: nat, raw: string, c: int) {
    0 <= c < |raw| && !IsSpace(raw[c]) && !Hidden(comments, start + c)
  }

  ghost predicate Kept(lines: seq<string>, comments: seq<Range>, fenced: set<nat>, i: nat)
    requires i < |lines|
  {
    i + 1 !in fenced &&
    ((forall r :: r in comments ==> !Touches(r, LineStart(lines, i), lines[i])) ||
     (exists c :: ShowsAt(comments, LineStart(lines, i), lines[i], c)))
  }

  ghost function KeptLines(lines: seq<string>, comments: seq<Range>, fenced: set<nat>, n: nat): seq<ProseLine>
    requires n <= |lines|
  {
    if n == 0 then []
    else
      KeptLines(lines, comments, fenced, n - 1) +
      if Kept(lines, comments, fenced, n - 1) then [ProseLine(n, lines[n - 1])] else []
  }

  // ---------------------------------------------------------------- clipping comments to a line

  function Max(a: nat, b: nat): nat { if a < b then b else a }

  function Min(a: nat, b: nat): nat { if a < b then a else b }

  /** The columns of one line that a comment takes, if it takes any. */
  function Clip(comment: Range, start: nat, raw: string): (r: seq<Range>)
    ensures |r| <= 1
  {
    var from, to := Max(comment.0, start), Min(comment.1, start + |raw|);
    if from < to then [(from - start, to - start)]
    else if raw == "" && comment.0 <= start && comment.1 > start then [(0, 0)]
    else []
  }

  /** The same characters are hidden whether one looks at the document or at the line. */
  ghost predicate SameHidden(comments: seq<Range>, start: nat, ranges: seq<Range>, raw: string) {
    forall c :: 0 <= c < |raw| ==> (Hidden(ranges, c) <==> Hidden(comments, start + c))
  }

  lemma ClipHides(comment: Range, start: nat, raw: string, c: nat)
    requires c < |raw|
    ensures Hidden(Clip(comment, start, raw), c) <==> Covers(comment, start + c)
  {
    var clipped := Clip(comment, start, raw);
    if Covers(comment, start + c) {
      assert clipped[0] in clipped && Covers(clipped[0], c);
    }
  }

  lemma ClipTouches(comment: Range, start: nat, raw: string)
    ensures Clip(comment, start, raw) != [] <==> Touches(comment, start, raw)
    ensures forall r :: r in Clip(comment, start, raw) ==> r.0 <= r.1 <= |raw|
  {
    var from := Max(comment.0, start);
    if from < Min(comment.1, start + |raw|) {
      assert Covers(comment, from);
    }
  }

  lemma HiddenByEither(a: seq<Range>, b: seq<Range>, offset: int)
    ensures Hidden(a + b, offset) <==> Hidden(a, offset) || Hidden(b, offset)
  {
    if Hidden(a, offset) {
      var r :| r in a && Covers(r, offset);
      assert r in a + b;
    }
    if Hidden(b, offset) {
      var r :| r in b && Covers(r, offset);
      assert r in a + b;
    }
  }

  lemma ClipOneMore(before: seq<Range>, comment: Range, ranges: seq<Range>, start: nat, raw: string)
    requires SameHidden(before, start, ranges, raw)
    ensures SameHidden(before + [comment], start, ranges + Clip(comment, start, raw), raw)
  {
    var clipped := Clip(comment, start, raw);
    forall c | 0 <= c < |raw|
      ensures Hidden(ranges + clipped, c) <==> Hidden(before + [comment], start + c)
    {
      HiddenByEither(ranges, clipped, c);
      HiddenByEither(before, [comment], start + c);
      ClipHides(comment, start, raw, c);
      assert Hidden([comment], start + c) <==> Covers(comment, start + c) by {
        assert comment in [comment];
      }
    }
  }

  /** The clipped ranges of all comments, in comment order. */
  method LineRanges(comments: seq<Range>, start: nat, raw: string) returns (ranges: seq<Range>)
    ensures ranges == [] <==> forall r :: r in comments ==> !Touches(r, start, raw)
    ensures SameHidden(comments, start, ranges, raw)
    ensures forall r :: r in ranges ==> r.0 <= r.1 <= |raw|
  {
    ranges := [];
    for k := 0 to |comments|
      invariant ranges == [] <==> forall r :: r in comments[..k] ==> !Touches(r, start, raw)
      invariant SameHidden(comments[..k], start, ranges, raw)
      invariant forall r :: r in ranges ==> r.0 <= r.1 <= |raw|
    {
      ClipTouches(comments[k], start, raw);
      ClipOneMore(comments[..k], comments[k], ranges, start, raw);
      assert comments[..k + 1] == comments[..k] + [comments[k]];
      ranges := ranges + Clip(comments[k], start, raw);
    }
    assert comments[..|comments|] == comments;
  }

  // ---------------------------------------------------------------- sweeping one line

  ghost predicate ByStart(ranges: seq<Range>) {
    forall i, j :: 0 <= i < j < |ranges| ==> ranges[i].0 <= ranges[j].0
  }

  function Insert(r: Range, sorted: seq<Range>): (s: seq<Range>)
    ensures forall q :: q in s <==> q == r || q in sorted
    ensures ByStart(sorted) ==> ByStart(s)
  {
    if sorted == [] || r.0 <= sorted[0].0 then [r] + sorted
    else
      var rest := Insert(r, sorted[1..]);
      assert forall q :: q in rest ==> sorted[0].0 <= q.0 || !ByStart(sorted);
      [sorted[0]] + rest
  }

  /** The ranges by ascending start. */
  function SortByStart(ranges: seq<Range>): (s: seq<Range>)
    ensures forall q :: q in s <==> q in ranges
    ensures ByStart(s)
  {
    if ranges == [] then [] else Insert(ranges[0], SortByStart(ranges[1..]))
  }

  /** `slice`: empty when the end does not lie after the start. */
  function Slice(s: string, from: nat, to: nat): string
    requires from <= |s| && to <= |s|
  {
    if from < to then s[from..to] else ""
  }

  /** A visible character before `limit` that no range covers. */
  ghost predicate Uncovered(raw: string, ranges: seq<Range>, limit: nat) {
    exists c :: 0 <= c < limit && c < |raw| && !IsSpace(raw[c]) && !Hidden(ranges, c)
  }

  /** Appending an uncovered stretch of the line adds exactly its visible characters. */
  lemma GapShows(raw: string, ranges: seq<Range>, visible: string, cursor: nat, start: nat, cursor': nat)
    requires cursor <= |raw| && start <= |raw| && cursor <= cursor' && start <= cursor'
    requires !IsBlank(visible) <==> Uncovered(raw, ranges, cursor)
    requires forall c :: cursor <= c < cursor' ==> (Hidden(ranges, c) <==> start <= c)
    ensures !IsBlank(visible + Slice(raw, cursor, start)) <==> Uncovered(raw, ranges, cursor')
  {
    var gap := Slice(raw, cursor, start);
    if !IsBlank(visible + gap) {
      if !IsBlank(visible) {
        assert Uncovered(raw, ranges, cursor);
      } else {
        var ch :| ch in visible + gap && !IsSpace(ch);
        var k :| 0 <= k < |gap| && gap[k] == ch;
        assert raw[cursor + k] == ch && !Hidden(ranges, cursor + k);
      }
    }
    if Uncovered(raw, ranges, cursor') {
      var c :| 0 <= c < cursor' && c < |raw| && !IsSpace(raw[c]) && !Hidden(ranges, c);
      if c < cursor {
        assert Uncovered(raw, ranges, cursor);
        var ch :| ch in visible && !IsSpace(ch);
        assert ch in visible + gap;
      } else {
        assert gap[c - cursor] == raw[c] && raw[c] in gap && raw[c] in visible + gap;
      }
    }
  }

  /** With the ranges before `k` swept, only those from `k` on can hide anything beyond the cursor. */
  lemma SweepStep(sorted: seq<Range>, k: nat, cursor: nat)
    requires k < |sorted| && ByStart(sorted)
    requires forall j :: 0 <= j < k ==> sorted[j].1 <= cursor
    ensures forall c :: cursor <= c < Max(cursor, sorted[k].1) ==> (Hidden(sorted, c) <==> sorted[k].0 <= c)
  {
    forall c | cursor <= c < Max(cursor, sorted[k].1) ensures Hidden(sorted, c) <==> sorted[k].0 <= c {
      if sorted[k].0 <= c {
        assert Covers(sorted[k], c);
      }
      if r :| r in sorted && Covers(r, c) {
        var j :| 0 <= j < |sorted| && sorted[j] == r;
      }
    }
  }

  lemma SameRanges(raw: string, a: seq<Range>, b: seq<Range>)
    requires forall r :: r in a <==> r in b
    ensures Uncovered(raw, a, |raw|) <==> Uncovered(raw, b, |raw|)
  {
    forall c ensures Hidden(a, c) <==> Hidden(b, c) {
    }
  }

  /** The sweep over one line's ranges, which may overlap. */
  method HasRenderedText(raw: string, ranges: seq<Range>) returns (shows: bool)
    requires forall r :: r in ranges ==> r.0 <= r.1 <= |raw|
    ensures shows <==> ranges == [] || Uncovered(raw, ranges, |raw|)
  {
    if ranges == [] {
      return true;
    }
    var sorted := SortByStart(ranges);
    var cursor: nat, visible := 0, "";
    for k := 0 to |sorted|
      invariant cursor <= |raw|
      invariant forall j :: 0 <= j < k ==> sorted[j].1 <= cursor
      invariant !IsBlank(visible) <==> Uncovered(raw, sorted, cursor)
    {
      var (start, end) := sorted[k];
      assert sorted[k] in ranges;
      SweepStep(sorted, k, cursor);
      GapShows(raw, sorted, visible, cursor,
        if start < Max(cursor, end) then start else Max(cursor, end), Max(cursor, end));
      visible := visible + Slice(raw, cursor, start);
      cursor := Max(cursor, end);
    }
    GapShows(raw, sorted, visible, cursor, |raw|, |raw|);
    visible := visible + Slice(raw, cursor, |raw|);
    SameRanges(raw, ranges, sorted);
    TrimIsEmptyIffBlank(visible);
    shows := Trim(visible) != "";
  }

  // ---------------------------------------------------------------- the document

  lemma LineIsKept(lines: seq<string>, comments: seq<Range>, fenced: set<nat>, i: nat, ranges: seq<Range>)
    requires i < |lines| && i + 1 !in fenced
    requires ranges == [] <==> forall r :: r in comments ==> !Touches(r, LineStart(lines, i), lines[i])
    requires SameHidden(comments, LineStart(lines, i), ranges, lines[i])
    ensures Kept(lines, comments, fenced, i) <==> ranges == [] || Uncovered(lines[i], ranges, |lines[i]|)
  {
    var start, raw := LineStart(lines, i), lines[i];
    if Uncovered(raw, ranges, |raw|) {
      var c :| 0 <= c < |raw| && !IsSpace(raw[c]) && !Hidden(ranges, c);
      assert ShowsAt(comments, start, raw, c);
    }
    if c :| ShowsAt(comments, start, raw, c) {
      assert !Hidden(ranges, c);
    }
  }

  /**
   * Keeps a line outside code blocks exactly when no comment touches it or some visible character
   * of it lies outside every comment, wherever comments start, end and overlap.
   */
  method MarkdownProseLines(lines: seq<string>, comments: seq<Range>, fenced: set<nat>) returns (kept: seq<ProseLine>)
    ensures kept == KeptLines(lines, comments, fenced, |lines|)
  {
    kept := [];
    var lineOffset := 0;
    for i := 0 to |lines|
      invariant lineOffset == LineStart(lines, i)
      invariant kept == KeptLines(lines, comments, fenced, i)
    {
      if i + 1 !in fenced {
        var ranges := LineRanges(comments, lineOffset, lines[i]);
        var shows := HasRenderedText(lines[i], ranges);
        LineIsKept(lines, comments, fenced, i, ranges);
        if shows {
          kept := kept + [ProseLine(i + 1, lines[i])];
        }
      }
      lineOffset := lineOffset + |lines[i]| + 1;
    }
  }
}
